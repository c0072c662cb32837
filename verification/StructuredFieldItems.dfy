/** Integers, decimals, strings, tokens and keys: what is written is what is read. */
module StructuredFieldItems {
  import opened Bytes
  import opened DecimalRounding
  import opened Doubles
  import opened StructuredFields
  import opened StructuredFieldText

  /** What can come behind an item. */
  predicate Follows(rest: string) {
    rest == [] || rest[0] in " ;,)"
  }

  lemma SpanStops(s: string, rest: string, p: char -> bool)
    requires forall i :: 0 <= i < |s| ==> p(s[i])
    requires rest == [] || !p(rest[0])
    ensures Span(s + rest, p) == |s|
    ensures (s + rest)[..|s|] == s && (s + rest)[|s|..] == rest
  {
    hide Span;
    SpanIs(s + rest, |s|, p);
  }

  // ---------------------------------------------------------------------------------------------
  // Integers

  lemma {:induction false} NatTextValue(n: nat)
    ensures DecimalValue(NatText(n)) == n
  {
    if n >= 10 {
      NatTextValue(n / 10);
      var s := NatText(n / 10);
      assert (s + [DigitChar(n % 10)])[..|s|] == s;
    } else {
      assert DecimalValue([]) == 0;
    }
  }

  lemma {:induction false} NatTextLength(n: nat, k: nat)
    requires 0 < k && n < Pow10(k)
    ensures |NatText(n)| <= k
  {
    if n >= 10 {
      NatTextLength(n / 10, k - 1);
    }
  }

  lemma ReadDigitsInteger(negative: bool, n: nat, rest: string)
    requires n <= MAX_INTEGER
    requires Follows(rest)
    ensures ReadDigits(negative, NatText(n) + rest) == Ok(Integer(SignedInteger(negative, n)), rest)
  {
    Pow10Values();
    NatTextLength(n, 15);
    NatTextValue(n);
    SpanStops(NatText(n), rest, IsDigit);
  }

  /** Which of the readers a number goes to. */
  lemma NumberStart(codec: Codec, negative: bool, digits: string)
    requires digits != [] && IsDigit(digits[0])
    ensures ReadBareItem(codec, (if negative then "-" else "") + digits) == ReadDigits(negative, digits)
  {
    hide ReadDigits;
    if negative {
      assert ("-" + digits)[1..] == digits;
    } else {
      assert "" + digits == digits;
    }
  }

  lemma IntegerRoundTrip(codec: Codec, n: int, rest: string)
    requires -MAX_INTEGER <= n <= MAX_INTEGER
    requires Follows(rest)
    ensures ReadBareItem(codec, IntegerText(n) + rest) == Ok(Integer(n), rest)
  {
    hide ReadBareItem, ReadDigits, NatText, Follows;
    var m: nat := if n < 0 then -n else n;
    ReadDigitsInteger(n < 0, m, rest);
    NumberStart(codec, n < 0, NatText(m) + rest);
    assert IntegerText(n) + rest == (if n < 0 then "-" else "") + (NatText(m) + rest);
  }

  // ---------------------------------------------------------------------------------------------
  // Decimals

  /** Digits after the point, with the zeros at the end or without. */
  lemma StrippedValue(n: nat)
    requires n < 1000
    ensures |Stripped(ThreeDigits(n))| <= 3
    ensures forall i :: 0 <= i < |Stripped(ThreeDigits(n))| ==> IsDigit(Stripped(ThreeDigits(n))[i])
    ensures FractionValue(Stripped(ThreeDigits(n))) == n as real / 1000.0
  {
    var a, b, c := n / 100, n / 10 % 10, n % 10;
    assert n == a * 100 + b * 10 + c;
    var s := ThreeDigits(n);
    ThreeDigitsValue(a, b, c);
    assert s[..2] == [DigitChar(a), DigitChar(b)] && s[..2][..1] == [DigitChar(a)];
    if c != 0 {
      assert Stripped(s) == s;
    } else if b != 0 {
      assert Stripped(s) == s[..2];
    } else {
      assert Stripped(s) == s[..2][..1];
    }
  }

  lemma ThreeDigitsValue(a: nat, b: nat, c: nat)
    requires a < 10 && b < 10 && c < 10
    ensures DecimalValue([DigitChar(a)]) == a
    ensures DecimalValue([DigitChar(a), DigitChar(b)]) == a * 10 + b
    ensures DecimalValue([DigitChar(a), DigitChar(b), DigitChar(c)]) == a * 100 + b * 10 + c
  {
    var x, y, z := DigitChar(a), DigitChar(b), DigitChar(c);
    assert DecimalValue([]) == 0;
    assert [x][..0] == [] && [x, y][..1] == [x] && [x, y, z][..2] == [x, y];
  }

  lemma ReadDigitsPoint(negative: bool, whole: string, tail: string)
    requires whole != [] && forall i :: 0 <= i < |whole| ==> IsDigit(whole[i])
    ensures ReadDigits(negative, whole + ("." + tail)) == ReadFraction(negative, whole, tail)
  {
    hide ReadFraction, DecimalValue, Span;
    SpanStops(whole, "." + tail, IsDigit);
    assert (whole + ("." + tail))[|whole| + 1..] == tail;
  }

  lemma ReadFractionText(negative: bool, whole: string, fraction: string, rest: string)
    requires IsDecimal(whole, fraction)
    requires Follows(rest)
    ensures ReadFraction(negative, whole, fraction + rest) == Ok(Decimal(DecimalOf(negative, whole, fraction)), rest)
  {
    hide Span, DecimalOf;
    SpanStops(fraction, rest, IsDigit);
  }

  lemma ThousandthsParts(n: nat, rest: string)
    ensures ThousandthsText(n) + rest == NatText(n / 1000) + ("." + (Stripped(ThreeDigits(n % 1000)) + rest))
    ensures (n / 1000) as real + (n % 1000) as real / 1000.0 == n as real / 1000.0
  {
    hide NatText, Stripped, ThreeDigits;
  }

  lemma ReadDigitsDecimal(negative: bool, n: nat, rest: string)
    requires n < LIMIT
    requires Follows(rest)
    ensures ReadDigits(negative, ThousandthsText(n) + rest)
         == Ok(Decimal(Signed(negative, n as real / 1000.0)), rest)
  {
    hide ReadDigits, ReadFraction, Stripped, ThreeDigits, NatText, ThousandthsText, Follows;
    hide DecimalValue, FractionValue;
    var whole, fraction := NatText(n / 1000), Stripped(ThreeDigits(n % 1000));
    ThousandthsParts(n, rest);
    Pow10Values();
    NatTextLength(n / 1000, 12);
    NatTextValue(n / 1000);
    StrippedValue(n % 1000);
    ReadFractionText(negative, whole, fraction, rest);
    ReadDigitsPoint(negative, whole, fraction + rest);
    assert DecimalThousandths(whole, fraction) as real / 1000.0 == n as real / 1000.0;
  }

  lemma ThousandthsTextStart(n: nat)
    ensures ThousandthsText(n) != [] && IsDigit(ThousandthsText(n)[0])
  {
  }

  /** What is read back is the rounded value. */
  lemma DecimalRoundTrip(codec: Codec, d: Double, rest: string)
    requires Abs(d) < TOO_LARGE
    requires Follows(rest)
    ensures ReadBareItem(codec, DecimalText(d) + rest) == Ok(Decimal(WrittenDecimal(d)), rest)
  {
    hide ReadBareItem, ReadDigits, ThousandthsText, Follows, Signed, WrittenThousandths;
    var n := WrittenThousandths(d);
    ReadDigitsDecimal(d < 0.0, n, rest);
    ThousandthsTextStart(n);
    NumberStart(codec, d < 0.0, ThousandthsText(n) + rest);
    assert DecimalText(d) + rest == (if d < 0.0 then "-" else "") + (ThousandthsText(n) + rest);
  }

  // ---------------------------------------------------------------------------------------------
  // Strings, tokens, byte sequences, keys

  lemma QuotedChar(c: char, tail: string)
    requires IsPrint(c)
    ensures ReadQuoted(EscapedChar(c) + tail) == Prefixed(c, ReadQuoted(tail))
  {
    if c == '\\' || c == '"' {
      assert (['\\', c] + tail)[2..] == tail;
    } else {
      assert ([c] + tail)[1..] == tail;
    }
  }

  lemma EscapedCons(s: string, tail: string)
    requires s != []
    ensures Escaped(s) + tail == EscapedChar(s[0]) + (Escaped(s[1..]) + tail)
  {
    hide EscapedChar;
  }

  lemma EmptyQuoted(rest: string)
    ensures ReadQuoted(Escaped([]) + ("\"" + rest)) == Ok([], rest)
  {
    assert [] + ("\"" + rest) == "\"" + rest;
  }

  lemma {:induction false} QuotedRoundTrip(s: string, rest: string)
    requires IsPrintable(s)
    ensures ReadQuoted(Escaped(s) + ("\"" + rest)) == Ok(s, rest)
  {
    if s == [] {
      EmptyQuoted(rest);
    } else {
      assert IsPrint(s[0]) && IsPrintable(s[1..]);
      hide ReadQuoted, Escaped, EscapedChar, IsPrintable, IsPrint;
      QuotedRoundTrip(s[1..], rest);
      QuotedChar(s[0], Escaped(s[1..]) + ("\"" + rest));
      EscapedCons(s, "\"" + rest);
      assert s == [s[0]] + s[1..];
    }
  }

  lemma StringRoundTrip(codec: Codec, s: string, rest: string)
    requires IsPrintable(s)
    ensures ReadBareItem(codec, "\"" + Escaped(s) + "\"" + rest) == Ok(String(s), rest)
  {
    hide ReadQuoted, Escaped, ReadNumber, ReadToken, ReadByteSequence, IsPrintable;
    QuotedRoundTrip(s, rest);
    var text := "\"" + Escaped(s) + "\"" + rest;
    assert text[1..] == Escaped(s) + ("\"" + rest);
  }

  lemma TokenRoundTrip(codec: Codec, s: string, rest: string)
    requires IsToken(s)
    requires Follows(rest)
    ensures ReadBareItem(codec, s + rest) == Ok(Token(s), rest)
  {
    assert rest != [] ==> !IsTokenChar(rest[0]);
    assert IsAlpha(s[0]) ==> !IsDigit(s[0]);
    hide IsTokenChar, Follows;
    SpanStops(s, rest, IsTokenChar);
    assert (s + rest)[0] == s[0];
    assert ReadBareItem(codec, s + rest) == ReadToken(s + rest);
  }

  lemma KeyRoundTrip(key: string, rest: string)
    requires IsKey(key)
    requires Follows(rest) || rest[0] == '='
    ensures ReadKey(key + rest) == Ok(key, rest)
  {
    SpanStops(key, rest, IsKeyChar);
    assert (key + rest)[0] == key[0];
  }

  /** Base64 as the byte sequences need it: groups of four, no colon, and what was escaped comes back. */
  ghost predicate Faithful(codec: Codec) {
    forall b :: |codec.escape(b)| % 4 == 0 && ':' !in codec.escape(b) && codec.unescape(codec.escape(b)) == Some(b)
  }

  lemma PaddedFull(e: string)
    requires |e| % 4 == 0
    ensures Padded(e) == e
  {
  }

  lemma ReadByteSequenceText(codec: Codec, e: string, b: seq<byte>, rest: string)
    requires |e| % 4 == 0 && ':' !in e && codec.unescape(e) == Some(b)
    ensures ReadByteSequence(codec, ":" + e + ":" + rest) == Ok(ByteSequence(b), rest)
  {
    PaddedFull(e);
    SpanStops(e, ":" + rest, NotColon);
    hide Span, Padded;
    var text := ":" + e + ":" + rest;
    assert text[1..] == e + (":" + rest);
    assert text[1..][|e| + 1..] == rest;
  }

  lemma ByteSequenceRoundTrip(codec: Codec, b: seq<byte>, rest: string)
    requires Faithful(codec)
    ensures ReadBareItem(codec, ":" + codec.escape(b) + ":" + rest) == Ok(ByteSequence(b), rest)
  {
    var e := codec.escape(b);
    ReadByteSequenceText(codec, e, b, rest);
    hide Faithful, ReadString, ReadToken, ReadByteSequence, ReadBoolean, ReadNumber;
    assert (":" + e + ":" + rest)[0] == ':';
  }

  lemma BooleanRoundTrip(codec: Codec, b: bool, rest: string)
    ensures ReadBareItem(codec, (if b then "?1" else "?0") + rest) == Ok(Boolean(b), rest)
  {
    var text := (if b then "?1" else "?0") + rest;
    assert text[2..] == rest;
  }

  lemma BareItemRoundTrip(codec: Codec, item: Item, rest: string)
    requires Faithful(codec)
    requires Writable(item)
    requires Follows(rest)
    ensures ReadBareItem(codec, ItemText(codec, item) + rest) == Ok(NormalItem(item), rest)
  {
    hide ReadBareItem, IntegerText, DecimalText, Faithful;
    match item
    case Integer(n) => IntegerRoundTrip(codec, n, rest);
    case Decimal(d) => DecimalRoundTrip(codec, d, rest);
    case String(s) => StringRoundTrip(codec, s, rest);
    case Token(s) => TokenRoundTrip(codec, s, rest);
    case ByteSequence(b) => ByteSequenceRoundTrip(codec, b, rest);
    case Boolean(b) => BooleanRoundTrip(codec, b, rest);
  }

  // ---------------------------------------------------------------------------------------------
  // What is read can be written, and is not changed by it

  /** At most three places behind the point and twelve in front of it. */
  predicate IsThousandths(d: Double) {
    exists m: nat :: m < LIMIT && Abs(d) == Thousandth(m)
  }

  predicate Canonical(item: Item) {
    match item
    case Null => false
    case Integer(n) => -MAX_INTEGER <= n <= MAX_INTEGER
    case Decimal(d) => IsThousandths(d)
    case String(s) => IsPrintable(s)
    case Token(s) => IsToken(s)
    case ByteSequence(_) => true
    case Boolean(_) => true
  }

  lemma DecimalComesBack(d: Double)
    ensures IsThousandths(d) <==> Abs(d) < TOO_LARGE && WrittenDecimal(d) == d
  {
    hide Nearest, Thousandths;
    if IsThousandths(d) {
      var m: nat :| m < LIMIT && Abs(d) == Thousandth(m);
      ThousandthStays(m);
    }
    if Abs(d) < TOO_LARGE && WrittenDecimal(d) == d {
      assert Abs(d) == Thousandth(WrittenThousandths(d));
    }
  }

  /** An item is canonical exactly if it can be written and comes back as it was. */
  lemma CanonicalComesBack(item: Item)
    ensures Canonical(item) <==> Writable(item) && NormalItem(item) == item
  {
    hide IsThousandths, WrittenDecimal, IsPrintable, IsToken;
    if item.Decimal? {
      DecimalComesBack(item.d);
    }
  }

  /** One sixteenth is written as 0.063 and reads back as that. */
  lemma SixteenthReadsBack(codec: Codec, d: Double)
    requires d == 0.0625
    ensures DecimalText(d) == "0.063"
    ensures ReadBareItem(codec, "0.063") == Ok(Decimal(Signed(false, 0.063)), "")
    ensures Signed(false, 0.063) != d && !Canonical(Decimal(d))
  {
    SixteenthGoesUp();
    assert NatText(0) == "0" && Stripped(ThreeDigits(63)) == "063";
    NearestError(0.063);
    hide Nearest, Thousandths, ReadBareItem;
    assert WrittenThousandths(d) == 63;
    assert DecimalText(d) == "" + ("0" + "." + "063") == "0.063";
    DecimalRoundTrip(codec, d, "");
    assert "0.063" + "" == "0.063";
    DecimalComesBack(d);
  }

  lemma ReadDigitsCanonical(negative: bool, s: string)
    ensures ReadDigits(negative, s).Ok? ==> Canonical(ReadDigits(negative, s).value)
  {
    hide Span, DecimalValue, DecimalOf, Pow10, IsThousandths;
    var whole := Span(s, IsDigit);
    DecimalValueBound(s[..whole]);
    Pow10Values();
    if ReadDigits(negative, s).Ok? {
      if whole < |s| && s[whole] == '.' {
        var t := s[whole + 1..];
        var fraction := t[..Span(t, IsDigit)];
        DecimalCanonical(negative, s[..whole], fraction);
      } else {
        Pow10Grows(whole, 15);
      }
    }
  }

  lemma DecimalCanonical(negative: bool, whole: string, fraction: string)
    requires IsDecimal(whole, fraction)
    ensures Canonical(Decimal(DecimalOf(negative, whole, fraction)))
  {
    var n := DecimalThousandths(whole, fraction);
    hide DecimalThousandths, DecimalValue, FractionValue, Nearest;
    assert Abs(DecimalOf(negative, whole, fraction)) == Thousandth(n);
  }

  lemma {:induction false} ReadQuotedPrintable(s: string)
    ensures ReadQuoted(s).Ok? ==> IsPrintable(ReadQuoted(s).value)
    decreases |s|
  {
    if ReadQuoted(s).Ok? && s[0] != '"' {
      ReadQuotedPrintable(if s[0] == '\\' then s[2..] else s[1..]);
    }
  }

  lemma ReadNumberCanonical(s: string)
    ensures ReadNumber(s).Ok? ==> Canonical(ReadNumber(s).value)
  {
    hide ReadDigits, Canonical;
    if StartsWith(s, '-') {
      ReadDigitsCanonical(true, s[1..]);
    } else {
      ReadDigitsCanonical(false, s);
    }
  }

  lemma ReadStringCanonical(s: string)
    ensures ReadString(s).Ok? ==> Canonical(ReadString(s).value)
  {
    hide ReadQuoted;
    if s != [] {
      ReadQuotedPrintable(s[1..]);
    }
  }

  lemma ReadTokenCanonical(s: string)
    ensures ReadToken(s).Ok? ==> Canonical(ReadToken(s).value)
  {
    hide IsTokenChar;
  }

  lemma ReadBareItemCanonical(codec: Codec, s: string)
    ensures ReadBareItem(codec, s).Ok? ==> Canonical(ReadBareItem(codec, s).value)
  {
    hide ReadNumber, ReadString, ReadToken;
    ReadNumberCanonical(s);
    ReadStringCanonical(s);
    ReadTokenCanonical(s);
  }

  lemma ReadKeyIsKey(s: string)
    ensures ReadKey(s).Ok? ==> IsKey(ReadKey(s).value)
  {
  }
}
