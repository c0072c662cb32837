/** The varints of MOQT (draft-ietf-moq-transport-17, section 1.4.1) and of EBML (RFC 8794, section 4). */
module MoqVarint {
  import opened Bytes
  import opened DataReader
  import opened DataWriter

  datatype Dialect = Moq | Ebml

  const FORBIDDEN_MOQ_LENGTH: nat := 7
  const MAX_EBML_VALUE: nat := 0xff_ffff_ffff_fffe
  const UINT64_LIMIT: nat := 0x1_0000_0000_0000_0000

  /** How many values fit into `n` bytes. */
  function Limit(n: nat): nat
    requires 1 <= n <= 9
  {
    match n
    case 1 => 0x80 case 2 => 0x4000 case 3 => 0x20_0000 case 4 => 0x1000_0000
    case 5 => 0x8_0000_0000 case 6 => 0x400_0000_0000 case 7 => 0x2_0000_0000_0000
    case 8 => 0x100_0000_0000_0000 case 9 => UINT64_LIMIT
  }

  /** How many values fit into what the first byte leaves for the value. */
  function Rest(n: nat): nat
    requires 1 <= n <= 8
  {
    match n
    case 1 => 128 case 2 => 64 case 3 => 32 case 4 => 16 case 5 => 8 case 6 => 4 case 7 => 2 case 8 => 1
  }

  /** Ones and a zero for MOQT, zeros and a one for EBML. */
  function Tag(d: Dialect, n: nat): byte
    requires 1 <= n <= 8
  {
    if d.Moq? then 256 - 2 * Rest(n) else Rest(n)
  }

  function LeadingOnes(b: byte): (n: nat)
    ensures n <= 8
  {
    if b < 128 then 0 else if b < 192 then 1 else if b < 224 then 2 else if b < 240 then 3
    else if b < 248 then 4 else if b < 252 then 5 else if b < 254 then 6 else if b < 255 then 7 else 8
  }

  function LengthForFirstByte(d: Dialect, b: byte): (n: nat)
    ensures 1 <= n <= 9
  {
    LeadingOnes(if d.Ebml? then 255 - b else b) + 1
  }

  function BitWidth(v: nat): nat {
    if v == 0 then 0 else 1 + BitWidth(v / 2)
  }

  function LengthForValue(d: Dialect, value: nat): (n: nat)
    ensures 1 <= n <= 9
  {
    var length := (6 + BitWidth(if d.Ebml? then value + 1 else value)) / 7;
    Min(Max(if d.Moq? && length == FORBIDDEN_MOQ_LENGTH then length + 1 else length, 1), 9)
  }

  predicate Encodable(d: Dialect, v: nat) {
    if d.Moq? then v < UINT64_LIMIT else v <= MAX_EBML_VALUE
  }

  function EncodeAs(d: Dialect, v: nat, n: nat): (s: seq<byte>)
    requires 1 <= n <= 9 && v < Limit(n)
    ensures |s| == n
  {
    if n == 9 then [255] + ToBytes(v, 8)
    else
      FirstByteFits(d, v, n);
      [Tag(d, n) + v / Pow256(n - 1)] + ToBytes(v % Pow256(n - 1), n - 1)
  }

  lemma PowersAndLimits(n: nat)
    requires 1 <= n <= 8
    ensures Limit(n) == Rest(n) * Pow256(n - 1)
  {
    PowersOf256();
    assert Pow256(4) == 256 * Pow256(3) && Pow256(5) == 256 * Pow256(4) && Pow256(6) == 256 * Pow256(5);
  }

  lemma FirstByteFits(d: Dialect, v: nat, n: nat)
    requires 1 <= n <= 8 && v < Limit(n)
    ensures v / Pow256(n - 1) < Rest(n)
    ensures Tag(d, n) + v / Pow256(n - 1) < 256
  {
    PowersAndLimits(n);
  }

  function Read(d: Dialect, s: seq<byte>): (r: Parsed<nat>)
    ensures r.Got? ==> |r.rest| < |s|
  {
    if s == [] then Short
    else
      var n := LengthForFirstByte(d, s[0]);
      if |s| < n || (d.Moq? && n == FORBIDDEN_MOQ_LENGTH) || (d.Ebml? && n > 8) then Short
      else if n == 9 then Got(FromBytes(s[1..9]), s[9..])
      else Got((s[0] % Rest(n)) * Pow256(n - 1) + FromBytes(s[1..n]), s[n..])
  }

  // ---------------------------------------------------------------------------------------------
  // The length of a value

  lemma {:induction false} BitWidthBound(v: nat, k: nat)
    ensures BitWidth(v) <= k <==> v < Pow2(k)
  {
    if k > 0 && v > 0 {
      BitWidthBound(v / 2, k - 1);
    }
  }

  function Pow2(k: nat): (p: nat)
    ensures p > 0
  {
    if k == 0 then 1 else 2 * Pow2(k - 1)
  }

  lemma LimitIsPow2(n: nat)
    requires 1 <= n <= 8
    ensures Limit(n) == Pow2(7 * n)
  {
    hide Pow2;
    Pow2Zero();
    Pow2By7(0);
    Pow2By7(7);
    Pow2By7(14);
    Pow2By7(21);
    Pow2By7(28);
    Pow2By7(35);
    Pow2By7(42);
    Pow2By7(49);
  }

  lemma Pow2Zero()
    ensures Pow2(0) == 1
  {
  }

  lemma Pow2By7(k: nat)
    ensures Pow2(k + 7) == 128 * Pow2(k)
  {
    assert Pow2(k + 2) == 4 * Pow2(k);
    assert Pow2(k + 4) == 16 * Pow2(k);
    assert Pow2(k + 6) == 64 * Pow2(k);
  }

  /** The length is the least that has room; EBML keeps the largest value of each length free. */
  lemma LengthIsLeast(d: Dialect, v: nat, n: nat)
    requires Encodable(d, v) && 1 <= n <= 8 && !(d.Moq? && n == FORBIDDEN_MOQ_LENGTH)
    ensures LengthForValue(d, v) <= n <==> (if d.Ebml? then v + 1 else v) < Limit(n)
  {
    var w := if d.Ebml? then v + 1 else v;
    BitWidthBound(w, 7 * n);
    LimitIsPow2(n);
    hide BitWidth, Pow2, Limit;
    assert (6 + BitWidth(w)) / 7 <= n <==> BitWidth(w) <= 7 * n;
  }

  lemma LengthFits(d: Dialect, v: nat)
    requires Encodable(d, v)
    ensures var n := LengthForValue(d, v);
            && v < Limit(n) && !(d.Moq? && n == FORBIDDEN_MOQ_LENGTH) && (d.Ebml? ==> n <= 8 && v + 1 < Limit(n))
  {
    if d.Ebml? {
      LengthIsLeast(d, v, 8);
    }
    var n := LengthForValue(d, v);
    if n <= 8 {
      NotForbidden(d, v);
      LengthIsLeast(d, v, n);
    }
  }

  lemma NotForbidden(d: Dialect, v: nat)
    ensures !(d.Moq? && LengthForValue(d, v) == FORBIDDEN_MOQ_LENGTH)
  {
    hide BitWidth;
  }

  function Encode(d: Dialect, v: nat): (s: seq<byte>)
    requires Encodable(d, v)
    ensures |s| == LengthForValue(d, v)
  {
    LengthFits(d, v);
    EncodeAs(d, v, LengthForValue(d, v))
  }

  // ---------------------------------------------------------------------------------------------
  // Reading and writing

  /** The first byte alone tells the length. */
  lemma FirstByteTellsLength(d: Dialect, v: nat, n: nat)
    requires 1 <= n <= 8 && v < Limit(n)
    ensures LengthForFirstByte(d, EncodeAs(d, v, n)[0]) == n
    ensures EncodeAs(d, v, n)[0] % Rest(n) == v / Pow256(n - 1)
  {
    FirstByteFits(d, v, n);
    TaggedByte(d, n, v / Pow256(n - 1));
  }

  lemma TaggedByte(d: Dialect, n: nat, hi: nat)
    requires 1 <= n <= 8 && hi < Rest(n)
    ensures LengthForFirstByte(d, Tag(d, n) + hi) == n && (Tag(d, n) + hi) % Rest(n) == hi
  {
    var k := if d.Ebml? then 1 else 256 / Rest(n) - 2;
    assert Tag(d, n) == k * Rest(n);
    RemainderUnique(k, Rest(n), hi);
  }

  lemma RemainderUnique(k: nat, r: nat, hi: nat)
    requires hi < r
    ensures (k * r + hi) % r == hi
  {
    QuotientUnique(k * r + hi, r, k, hi);
  }

  lemma ReadHead(d: Dialect, first: byte, tail: seq<byte>, t: seq<byte>)
    requires LengthForFirstByte(d, first) == 1 + |tail|
    requires !(d.Moq? && |tail| == 6) && !(d.Ebml? && |tail| == 8)
    ensures Read(d, [first] + tail + t)
         == Got(if |tail| == 8 then FromBytes(tail)
                else (first % Rest(1 + |tail|)) * Pow256(|tail|) + FromBytes(tail), t)
  {
    hide LengthForFirstByte, FromBytes, Pow256, Rest;
    var s := [first] + tail + t;
    assert s[1..1 + |tail|] == tail && s[1 + |tail|..] == t;
  }

  lemma ReadNine(v: nat, t: seq<byte>)
    requires v < UINT64_LIMIT
    ensures Read(Moq, EncodeAs(Moq, v, 9) + t) == Got(v, t)
  {
    hide Read, ToBytes, FromBytes;
    PowersOf256();
    assert Pow256(8) == 256 * Pow256(7);
    FromToBytes(v, 8);
    ReadHead(Moq, 255, ToBytes(v, 8), t);
  }

  lemma ReadAs(d: Dialect, v: nat, n: nat, t: seq<byte>)
    requires 1 <= n <= 8 && v < Limit(n)
    requires !(d.Moq? && n == FORBIDDEN_MOQ_LENGTH)
    ensures Read(d, EncodeAs(d, v, n) + t) == Got(v, t)
  {
    hide LengthForFirstByte, Limit, Read, Rest, Tag, ToBytes, FromBytes;
    FirstByteTellsLength(d, v, n);
    FirstByteFits(d, v, n);
    var p := Pow256(n - 1);
    FromToBytes(v % p, n - 1);
    ReadHead(d, Tag(d, n) + v / p, ToBytes(v % p, n - 1), t);
    QuotientAndRest(v, p);
  }

  lemma QuotientAndRest(v: nat, p: nat)
    requires p > 0
    ensures v / p * p + v % p == v
  {
  }

  /** Reading undoes writing, whatever follows. */
  lemma ReadEncode(d: Dialect, v: nat, t: seq<byte>)
    requires Encodable(d, v)
    ensures Read(d, Encode(d, v) + t) == Got(v, t)
  {
    LengthFits(d, v);
    hide LengthForValue, EncodeAs, Read;
    var n := LengthForValue(d, v);
    if n == 9 {
      ReadNine(v, t);
    } else {
      ReadAs(d, v, n, t);
    }
  }

  lemma ReadBound(d: Dialect, s: seq<byte>)
    requires Read(d, s).Got?
    ensures Read(d, s).value < Limit(LengthForFirstByte(d, s[0]))
    ensures |s| - |Read(d, s).rest| == LengthForFirstByte(d, s[0])
  {
    var n := LengthForFirstByte(d, s[0]);
    ToFromBytes(s[1..n]);
    if n == 9 {
      PowersOf256();
      assert Pow256(8) == 256 * Pow256(7);
    } else {
      PowersAndLimits(n);
      BelowProduct(s[0] % Rest(n), Rest(n), Pow256(n - 1), FromBytes(s[1..n]));
    }
  }

  lemma BelowProduct(a: nat, r: nat, p: nat, b: nat)
    requires a < r && b < p
    ensures a * p + b < r * p
  {
    assert (a + 1) * p <= r * p;
  }

  /**
   * No encoding is shorter than the one that is written, except that EBML can be read where all bits of
   * the value are ones, which is never written.
   */
  lemma ShortestExactly(d: Dialect, s: seq<byte>)
    requires Read(d, s).Got?
    ensures var v, n := Read(d, s).value, LengthForFirstByte(d, s[0]);
            Encodable(d, v) ==> (LengthForValue(d, v) <= n <==> !(d.Ebml? && v == Limit(n) - 1))
  {
    var v, n := Read(d, s).value, LengthForFirstByte(d, s[0]);
    ReadBound(d, s);
    if Encodable(d, v) && n <= 8 {
      LengthIsLeast(d, v, n);
    }
  }

  /** All ones are read in each length, as a value for which a longer form, or none, would be written. */
  lemma AllOnesAreRead(n: nat)
    requires 1 <= n <= 8
    ensures var v := Limit(n) - 1;
            && Read(Ebml, EncodeAs(Ebml, v, n)) == Got(v, [])
            && if n < 8 then LengthForValue(Ebml, v) > n else !Encodable(Ebml, v)
  {
    var v := Limit(n) - 1;
    ReadAs(Ebml, v, n, []);
    assert EncodeAs(Ebml, v, n) + [] == EncodeAs(Ebml, v, n);
    if n < 8 {
      LengthIsLeast(Ebml, v, n);
    }
  }

  /** The value bits of what is written to EBML are never all ones. */
  lemma NeverAllOnes(v: nat)
    requires Encodable(Ebml, v)
    ensures LengthForValue(Ebml, v) <= 8 && v != Limit(LengthForValue(Ebml, v)) - 1
  {
    LengthFits(Ebml, v);
  }

  // ---------------------------------------------------------------------------------------------
  // With a reader and a writer

  lemma {:induction false} LeadingZeros(s: seq<byte>, k: nat)
    requires k <= |s| && forall i :: 0 <= i < k ==> s[i] == 0
    ensures FromBytes(s) == FromBytes(s[k..])
    decreases k
  {
    if k == 0 {
      assert s[0..] == s;
    } else {
      FromBytesHead(s);
      LeadingZeros(s[1..], k - 1);
      assert s[1..][k - 1..] == s[k..];
    }
  }

  /** Copies a varint to the low end of a word and takes the length out of its first byte. */
  method MaskedWord(data: seq<byte>, length: nat) returns (result: nat)
    requires 1 <= length <= 8 && length <= |data|
    ensures result == (data[0] % Rest(length)) * Pow256(length - 1) + FromBytes(data[1..length])
  {
    hide FromBytes, Pow256;
    var start := 8 - length;
    var word := new byte[8](_ => 0);
    for i := 0 to length
      invariant forall k :: 0 <= k < 8 ==> word[k] == if start <= k < start + i then data[k - start] else 0
    {
      word[start + i] := data[i];
    }
    word[start] := word[start] % Rest(length);
    ghost var bytes := word[..];
    LeadingZeros(bytes, start);
    FromBytesHead(bytes[start..]);
    assert bytes[start..][0] == data[0] % Rest(length);
    assert bytes[start..][1..] == data[1..length] by {
      assert forall k :: 1 <= k < length ==> bytes[start + k] == data[k];
    }
    result := FromBytes(word[..]);
  }

  lemma {:induction false} LowBytes(v: nat, n: nat, k: nat)
    ensures ToBytes(v, n + k)[k..] == ToBytes(v, n)
    decreases n
  {
    if n > 0 {
      LowBytes(v / 256, n - 1, k);
    }
  }

  lemma LowParts(hi: nat, lo: nat, n: nat)
    requires 1 <= n <= 8 && lo < Pow256(n - 1)
    ensures ToBytes(hi * Pow256(n - 1) + lo, 8)[8 - n..] == [hi % 256] + ToBytes(lo, n - 1)
  {
    hide ToBytes, Pow256;
    LowBytes(hi * Pow256(n - 1) + lo, n, 8 - n);
    ToBytesTop(hi, lo, n - 1);
  }

  /** The bits of the value in the first byte do not depend on those above them. */
  lemma BitsOfFirstByte(q: nat, hi: nat, n: nat)
    requires 1 <= n <= 8 && hi < Rest(n)
    ensures (Rest(n) * q + hi) % 256 % Rest(n) == hi
  {
    DividesByte(n);
    RemainderOfByte(q, hi, Rest(n), 256 / Rest(n));
  }

  lemma DividesByte(n: nat)
    requires 1 <= n <= 8
    ensures Rest(n) * (256 / Rest(n)) == 256
  {
  }

  lemma RemainderOfByte(q: nat, hi: nat, r: nat, c: nat)
    requires hi < r && r * c == 256
    ensures (r * q + hi) % 256 % r == hi
  {
    var k, rest := Divided(r * q + hi, 256);
    var m := q - c * k;
    assert r * m == r * q - r * c * k;
    assert r * m + hi == rest;
    NotNegative(r, m);
    RemainderUnique(m, r, hi);
  }

  lemma NotNegative(r: nat, m: int)
    requires r * m + r > 0
    ensures m >= 0
  {
  }

  lemma Regrouped(r: nat, p: nat, q: nat, hi: nat, lo: nat)
    ensures r * p * q + (p * hi + lo) == (r * q + hi) * p + lo
  {
    assert r * p * q == r * q * p;
  }

  /** The low bytes of a value: a first byte of which the length takes some bits, and the others. */
  lemma LowWord(d: Dialect, v: nat, n: nat) returns (first: byte, tail: seq<byte>)
    requires 1 <= n <= 8
    ensures v % Limit(n) < Limit(n) && Tag(d, n) + first % Rest(n) < 256
    ensures ToBytes(v, 8)[8 - n..] == [first] + tail
    ensures EncodeAs(d, v % Limit(n), n) == [Tag(d, n) + first % Rest(n)] + tail
  {
    PowersAndLimits(n);
    hide ToBytes, Limit, Rest, Tag, Pow256;
    var p := Pow256(n - 1);
    var q, low := Divided(v, Limit(n));
    FirstByteFits(d, low, n);
    var hi, lo := Divided(low, p);
    Regrouped(Rest(n), p, q, hi, lo);
    BitsOfFirstByte(q, hi, n);
    first, tail := (Rest(n) * q + hi) % 256, ToBytes(lo, n - 1);
    LowParts(Rest(n) * q + hi, lo, n);
  }

  /** The bits that stand for the length, with the bits of the value cleared. */
  lemma LengthBits(d: Dialect, n: nat)
    requires 1 <= n <= 8
    ensures var bits := if d.Moq? then 255 - Rest(n) else Rest(n); bits - bits % Rest(n) == Tag(d, n)
  {
  }

  method CopyLow(word: seq<byte>, length: nat) returns (buffer: array<byte>)
    requires |word| == 8 && 1 <= length <= 8
    ensures fresh(buffer) && buffer[..] == word[8 - length..]
  {
    buffer := new byte[length](_ => 0);
    for i := 0 to length
      invariant forall k :: 0 <= k < i ==> buffer[k] == word[8 - length + k]
    {
      buffer[i] := word[8 - length + i];
    }
  }

  lemma SmallRemainder(a: nat, r: nat)
    requires r > 0
    ensures a % r == a <==> a < r
    ensures a % r < r
  {
  }

  /** Copies the low bytes of a word and puts the length into the first of them. */
  method TaggedWord(d: Dialect, value: nat, length: nat) returns (buffer: array<byte>)
    requires 1 <= length <= 8
    ensures fresh(buffer) && buffer[..] == EncodeAs(d, value % Limit(length), length)
  {
    ghost var first, tail := LowWord(d, value, length);
    LengthBits(d, length);
    hide ToBytes, Limit, Rest, Tag, EncodeAs;
    buffer := CopyLow(ToBytes(value, 8), length);
    assert buffer[0] == first && buffer[1..] == tail;
    var bits := if d.Moq? then 255 - Rest(length) else Rest(length);
    buffer[0] := buffer[0] % Rest(length) + (bits - bits % Rest(length));
    assert buffer[..] == [buffer[0]] + buffer[1..];
  }

  /** Failure leaves the reader where it was. */
  method ReadVarint(d: Dialect, reader: QuicheDataReader) returns (r: Option<nat>)
    requires reader.Valid()
    modifies reader
    ensures reader.Valid()
    ensures r.None? ==> Read(d, old(reader.Remaining())).Short? && reader.Remaining() == old(reader.Remaining())
    ensures r.Some? ==> Read(d, old(reader.Remaining())) == Got(r.value, reader.Remaining())
  {
    var data := reader.PeekRemainingPayload();
    if data == [] {
      return None;
    }
    var length := LengthForFirstByte(d, data[0]);
    if |data| < length {
      return None;
    }
    if d.Moq? && length == FORBIDDEN_MOQ_LENGTH {
      return None;
    }
    if d.Ebml? && length > 8 {
      return None;
    }
    var result: nat;
    if length == 9 {
      result := FromBytes(data[1..9]);
    } else {
      result := MaskedWord(data, length);
    }
    var _, _ := reader.ReadStringPiece(length);
    r := Some(result);
  }

  /** What is written in a length that the caller has chosen: bits that do not fit are dropped. */
  function EncodeIn(d: Dialect, value: nat, length: nat): (s: seq<byte>)
    requires 1 <= length <= 9
    ensures |s| == length
  {
    EncodeAs(d, value % Limit(length), length)
  }

  lemma NineBytes(d: Dialect, value: nat)
    requires value < UINT64_LIMIT
    ensures EncodeIn(d, value, 9) == [255] + ToBytes(value, 8)
  {
    hide ToBytes;
    SmallRemainder(value, Limit(9));
  }

  method WriteNine(writer: QuicheDataWriter, value: nat) returns (ok: bool)
    requires writer.Valid()
    modifies writer, writer.buffer
    ensures writer.Valid() && ok == (9 <= old(writer.Room()))
    ensures ok ==> writer.Written() == old(writer.Written()) + ([255] + ToBytes(value, 8))
  {
    hide ToBytes;
    ok := writer.WriteBytes([255]);
    if ok {
      ok := writer.WriteUInt(value, 8);
      assert ok ==> writer.Written() == old(writer.Written()) + [255] + ToBytes(value, 8);
    }
  }

  /** A varint of nine bytes is written in two parts, the others at once. */
  method WriteVarintIn(d: Dialect, writer: QuicheDataWriter, value: nat, length: nat) returns (ok: bool)
    requires writer.Valid() && value < UINT64_LIMIT
    requires 1 <= length <= 9 && (d.Ebml? && value <= MAX_EBML_VALUE ==> length <= 8)
    modifies writer, writer.buffer
    ensures writer.Valid()
    ensures ok <==> Encodable(d, value) && length <= old(writer.Room())
    ensures ok ==> writer.Written() == old(writer.Written()) + EncodeIn(d, value, length)
    ensures !ok && !(d.Moq? && length == 9) ==> writer.Written() == old(writer.Written())
  {
    if d.Ebml? && value > MAX_EBML_VALUE {
      return false;
    }
    hide EncodeAs, Limit;
    if length == 9 {
      NineBytes(d, value);
      ok := WriteNine(writer, value);
    } else {
      var buffer := TaggedWord(d, value, length);
      ok := writer.WriteBytes(buffer[..]);
    }
  }

  method WriteVarint(d: Dialect, writer: QuicheDataWriter, value: nat) returns (ok: bool)
    requires writer.Valid() && value < UINT64_LIMIT
    modifies writer, writer.buffer
    ensures writer.Valid()
    ensures ok <==> Encodable(d, value) && LengthForValue(d, value) <= old(writer.Room())
    ensures ok ==> writer.Written() == old(writer.Written()) + Encode(d, value)
    ensures !ok && !(d.Moq? && LengthForValue(d, value) == 9) ==> writer.Written() == old(writer.Written())
  {
    hide LengthForValue, EncodeAs, Limit;
    var length := LengthForValue(d, value);
    if Encodable(d, value) {
      LengthFits(d, value);
      SmallRemainder(value, Limit(length));
    }
    ok := WriteVarintIn(d, writer, value, length);
  }

  /** A length that the caller chooses is undone by reading if and only if the value fits into it and it
      is not the forbidden one. */
  lemma CustomLengthExactly(value: nat, length: nat, t: seq<byte>)
    requires value < UINT64_LIMIT && 1 <= length <= 9
    ensures Read(Moq, EncodeIn(Moq, value, length) + t) == Got(value, t)
            <==> value < Limit(length) && length != FORBIDDEN_MOQ_LENGTH
  {
    assert Limit(9) == UINT64_LIMIT;
    hide Read, EncodeAs, Limit;
    var low := value % Limit(length);
    SmallRemainder(value, Limit(length));
    if length == 9 {
      ReadNine(low, t);
    } else if length == FORBIDDEN_MOQ_LENGTH {
      ForbiddenIsNotRead(low, t);
    } else {
      ReadAs(Moq, low, length, t);
    }
  }

  lemma ForbiddenIsNotRead(v: nat, t: seq<byte>)
    requires v < Limit(FORBIDDEN_MOQ_LENGTH)
    ensures Read(Moq, EncodeAs(Moq, v, FORBIDDEN_MOQ_LENGTH) + t).Short?
  {
    hide Limit, Rest, Tag, ToBytes, FromBytes, LengthForFirstByte;
    FirstByteTellsLength(Moq, v, FORBIDDEN_MOQ_LENGTH);
    var s := EncodeAs(Moq, v, FORBIDDEN_MOQ_LENGTH);
    assert (s + t)[0] == s[0];
  }

  /** Such lengths: 200 has no room in one byte, and seven bytes are not read at all. */
  lemma CustomLengthLoses()
    ensures Read(Moq, EncodeIn(Moq, 200, 1)) == Got(72, [])
    ensures Read(Moq, EncodeIn(Moq, 5, FORBIDDEN_MOQ_LENGTH)).Short?
  {
    assert 200 % Limit(1) == 72 && 5 % Limit(FORBIDDEN_MOQ_LENGTH) == 5;
    hide Read, EncodeAs, Limit;
    ReadAs(Moq, 72, 1, []);
    ForbiddenIsNotRead(5, []);
    assert EncodeIn(Moq, 200, 1) + [] == EncodeIn(Moq, 200, 1);
    assert EncodeIn(Moq, 5, FORBIDDEN_MOQ_LENGTH) + [] == EncodeIn(Moq, 5, FORBIDDEN_MOQ_LENGTH);
  }
}
