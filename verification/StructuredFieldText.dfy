/** How structured field values are written (RFC 8941, section 4.1). */
module StructuredFieldText {
  import opened Bytes
  import opened DecimalRounding
  import opened Doubles
  import opened StructuredFields

  const MAX_INTEGER: int := 999_999_999_999_999

  function Both(a: Option<string>, b: Option<string>): Option<string> {
    if a.None? || b.None? then None else Some(a.value + b.value)
  }

  // ---------------------------------------------------------------------------------------------
  // Numbers

  function DigitChar(d: nat): (c: char)
    requires d < 10
    ensures IsDigit(c) && DigitValue(c) == d
  {
    ('0' as int + d) as char
  }

  function NatText(n: nat): (s: string)
    ensures s != [] && forall i :: 0 <= i < |s| ==> IsDigit(s[i])
  {
    if n < 10 then [DigitChar(n)] else NatText(n / 10) + [DigitChar(n % 10)]
  }

  function IntegerText(n: int): (s: string)
    ensures s != []
  {
    if n < 0 then "-" + NatText(-n) else NatText(n)
  }

  /** The number of thousandths that is written, without the sign. */
  function WrittenThousandths(d: Double): (n: nat)
    requires Abs(d) < TOO_LARGE
    ensures n < LIMIT
  {
    assert IsDouble(d);
    ThousandthsInRange(Abs(d));
    Thousandths(Abs(d))
  }

  /** What is read where a double was written. */
  function WrittenDecimal(d: Double): Double
    requires Abs(d) < TOO_LARGE
  {
    Signed(d < 0.0, WrittenThousandths(d) as real / 1000.0)
  }

  /** Without the zeros at the end, except that one digit stays. */
  function Stripped(s: string): (r: string)
    requires s != []
    ensures r != [] && r <= s
  {
    if |s| > 1 && s[|s| - 1] == '0' then Stripped(s[..|s| - 1]) else s
  }

  function ThreeDigits(n: nat): (s: string)
    requires n < 1000
    ensures |s| == 3 && forall i :: 0 <= i < |s| ==> IsDigit(s[i])
  {
    [DigitChar(n / 100), DigitChar(n / 10 % 10), DigitChar(n % 10)]
  }

  /** A number of thousandths, with at least one digit behind the point. */
  function ThousandthsText(n: nat): string {
    NatText(n / 1000) + "." + Stripped(ThreeDigits(n % 1000))
  }

  function DecimalText(d: Double): string
    requires Abs(d) < TOO_LARGE
  {
    (if d < 0.0 then "-" else "") + ThousandthsText(WrittenThousandths(d))
  }

  // ---------------------------------------------------------------------------------------------
  // Bare items and keys

  predicate IsKey(s: string) {
    s != [] && (forall i :: 0 <= i < |s| ==> IsKeyChar(s[i])) && (IsLower(s[0]) || s[0] == '*')
  }

  predicate IsToken(s: string) {
    s != [] && (IsAlpha(s[0]) || s[0] == '*') && forall i :: 0 <= i < |s| ==> IsTokenChar(s[i])
  }

  predicate IsPrintable(s: string) {
    forall i :: 0 <= i < |s| ==> IsPrint(s[i])
  }

  function EscapedChar(c: char): string {
    if c == '\\' || c == '"' then ['\\', c] else [c]
  }

  function Escaped(s: string): string {
    if s == [] then [] else EscapedChar(s[0]) + Escaped(s[1..])
  }

  /** What can be written at all. */
  predicate Writable(item: Item) {
    match item
    case Null => false
    case Integer(n) => -MAX_INTEGER <= n <= MAX_INTEGER
    case Decimal(d) => Abs(d) < TOO_LARGE
    case String(s) => IsPrintable(s)
    case Token(s) => IsToken(s)
    case ByteSequence(_) => true
    case Boolean(_) => true
  }

  function ItemText(codec: Codec, item: Item): string
    requires Writable(item)
  {
    match item
    case Integer(n) => IntegerText(n)
    case Decimal(d) => DecimalText(d)
    case String(s) => "\"" + Escaped(s) + "\""
    case Token(s) => s
    case ByteSequence(b) => ":" + codec.escape(b) + ":"
    case Boolean(b) => if b then "?1" else "?0"
  }

  function WriteBareItem(codec: Codec, item: Item): Option<string> {
    if Writable(item) then Some(ItemText(codec, item)) else None
  }

  function WriteKey(key: string): Option<string> {
    if IsKey(key) then Some(key) else None
  }

  // ---------------------------------------------------------------------------------------------
  // Parameters, items, members

  /** The value behind a key; nothing for true, nor for a value that is not there. */
  function WriteParameterValue(codec: Codec, item: Item): Option<string> {
    if item.Null? || item == Boolean(true) then Some("") else Both(Some("="), WriteBareItem(codec, item))
  }

  function WriteParameter(codec: Codec, p: (string, Item)): Option<string> {
    Both(WriteKey(p.0), WriteParameterValue(codec, p.1))
  }

  function WriteParameters(codec: Codec, ps: Entries<Item>): Option<string> {
    if ps == [] then Some("")
    else Both(Both(Some(";"), WriteParameter(codec, ps[0])), WriteParameters(codec, ps[1..]))
  }

  function WriteItem(codec: Codec, item: ParameterizedItem): Option<string> {
    Both(WriteBareItem(codec, item.item), WriteParameters(codec, item.params))
  }

  /** Items, each with a space in front. */
  function WriteSpacedItems(codec: Codec, items: seq<ParameterizedItem>): Option<string> {
    if items == [] then Some("")
    else Both(Both(Some(" "), WriteItem(codec, items[0])), WriteSpacedItems(codec, items[1..]))
  }

  function WriteItems(codec: Codec, items: seq<ParameterizedItem>): Option<string> {
    if items == [] then Some("")
    else Both(WriteItem(codec, items[0]), WriteSpacedItems(codec, items[1..]))
  }

  function WriteInnerList(codec: Codec, items: seq<ParameterizedItem>): Option<string> {
    Both(Both(Some("("), WriteItems(codec, items)), Some(")"))
  }

  /** A member that is not an inner list holds one item. */
  predicate IsMember(m: Member) {
    m.isInnerList || |m.items| == 1
  }

  function WriteMember(codec: Codec, m: Member): Option<string>
    requires IsMember(m)
  {
    Both(if m.isInnerList then WriteInnerList(codec, m.items) else WriteItem(codec, m.items[0]),
         WriteParameters(codec, m.params))
  }

  // ---------------------------------------------------------------------------------------------
  // Lists and dictionaries

  predicate IsList(ms: Members) {
    forall i :: 0 <= i < |ms| ==> IsMember(ms[i])
  }

  function WriteMoreMembers(codec: Codec, ms: Members): Option<string>
    requires IsList(ms)
  {
    if ms == [] then Some("")
    else Both(Both(Some(", "), WriteMember(codec, ms[0])), WriteMoreMembers(codec, ms[1..]))
  }

  function WriteList(codec: Codec, ms: Members): Option<string>
    requires IsList(ms)
  {
    if ms == [] then Some("")
    else Both(WriteMember(codec, ms[0]), WriteMoreMembers(codec, ms[1..]))
  }

  /** A member that is written by its key alone. */
  predicate IsTrue(m: Member) {
    !m.isInnerList && m.items != [] && m.items[0].item == Boolean(true)
  }

  predicate IsEntry(e: (string, Member)) {
    IsTrue(e.1) || IsMember(e.1)
  }

  function WriteEntryValue(codec: Codec, m: Member): Option<string>
    requires IsTrue(m) || IsMember(m)
  {
    if IsTrue(m) then WriteParameters(codec, m.params) else Both(Some("="), WriteMember(codec, m))
  }

  function WriteEntry(codec: Codec, e: (string, Member)): Option<string>
    requires IsEntry(e)
  {
    Both(WriteKey(e.0), WriteEntryValue(codec, e.1))
  }

  predicate IsDictionary(d: Dictionary) {
    forall i :: 0 <= i < |d| ==> IsEntry(d[i])
  }

  function WriteMoreEntries(codec: Codec, d: Dictionary): Option<string>
    requires IsDictionary(d)
  {
    if d == [] then Some("")
    else Both(Both(Some(", "), WriteEntry(codec, d[0])), WriteMoreEntries(codec, d[1..]))
  }

  function WriteDictionary(codec: Codec, d: Dictionary): Option<string>
    requires IsDictionary(d)
  {
    if d == [] then Some("")
    else Both(WriteEntry(codec, d[0]), WriteMoreEntries(codec, d[1..]))
  }

  // ---------------------------------------------------------------------------------------------
  // What becomes of a value that is written and read again

  function NormalItem(item: Item): Item {
    match item
    case Null => Boolean(true)
    case Decimal(d) => if Abs(d) < TOO_LARGE then Decimal(WrittenDecimal(d)) else item
    case Integer(_) => item
    case String(_) => item
    case Token(_) => item
    case ByteSequence(_) => item
    case Boolean(_) => item
  }

  function NormalValues(ps: Entries<Item>): (r: Entries<Item>)
    ensures |r| == |ps|
    ensures forall i :: 0 <= i < |ps| ==> r[i] == (ps[i].0, NormalItem(ps[i].1))
  {
    seq(|ps|, i requires 0 <= i < |ps| => (ps[i].0, NormalItem(ps[i].1)))
  }

  function NormalParameters(ps: Entries<Item>): Entries<Item> {
    Merged(NormalValues(ps))
  }

  function NormalParameterizedItem(item: ParameterizedItem): ParameterizedItem {
    ParameterizedItem(NormalItem(item.item), NormalParameters(item.params))
  }

  function NormalItems(items: seq<ParameterizedItem>): (r: seq<ParameterizedItem>)
    ensures |r| == |items|
    ensures forall i :: 0 <= i < |items| ==> r[i] == NormalParameterizedItem(items[i])
  {
    seq(|items|, i requires 0 <= i < |items| => NormalParameterizedItem(items[i]))
  }

  /** The parameters of a single item and those of its member become one list. */
  function NormalMember(m: Member): Member
    requires IsMember(m)
  {
    if m.isInnerList then Member(NormalItems(m.items), true, NormalParameters(m.params))
    else SingleItem(NormalItem(m.items[0].item), NormalParameters(m.items[0].params + m.params))
  }

  function NormalList(ms: Members): (r: Members)
    requires IsList(ms)
    ensures |r| == |ms|
    ensures forall i :: 0 <= i < |ms| ==> r[i] == NormalMember(ms[i])
  {
    seq(|ms|, i requires 0 <= i < |ms| => NormalMember(ms[i]))
  }

  function NormalEntryValue(m: Member): Member
    requires IsTrue(m) || IsMember(m)
  {
    if IsTrue(m) then SingleItem(Boolean(true), NormalParameters(m.params)) else NormalMember(m)
  }

  function NormalEntries(d: Dictionary): (r: Dictionary)
    requires IsDictionary(d)
    ensures |r| == |d|
    ensures forall i :: 0 <= i < |d| ==> IsEntry(d[i]) && r[i] == (d[i].0, NormalEntryValue(d[i].1))
  {
    seq(|d|, i requires 0 <= i < |d| => assert IsEntry(d[i]); (d[i].0, NormalEntryValue(d[i].1)))
  }

  function NormalDictionary(d: Dictionary): Dictionary
    requires IsDictionary(d)
  {
    Merged(NormalEntries(d))
  }
}
