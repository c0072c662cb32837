/** The 62-bit variable-length integers of RFC 9000, section 16. */
module VarInt62 {
  import opened Bytes

  const LIMIT: nat := 0x4000_0000_0000_0000

  /** Bytes needed for `v`; zero when `v` has no encoding. */
  function Len(v: nat): (n: nat)
    ensures n == 0 <==> v >= LIMIT
    ensures n in {0, 1, 2, 4, 8}
  {
    if v >= LIMIT then 0
    else if v >= 0x4000_0000 then 8
    else if v >= 0x4000 then 4
    else if v >= 0x40 then 2
    else 1
  }

  /** The length of a varint, told by its first byte alone. */
  function FirstByteLen(b: byte): (n: nat)
    ensures n in {1, 2, 4, 8}
  {
    if b >= 0xc0 then 8 else if b >= 0x80 then 4 else if b >= 0x40 then 2 else 1
  }

  /** The two length bits, in place in the first byte. */
  function Tag(n: nat): (t: byte)
  {
    if n == 8 then 0xc0 else if n == 4 then 0x80 else if n == 2 then 0x40 else 0
  }

  function Encode(v: nat): (s: seq<byte>)
    requires v < LIMIT
    ensures |s| == Len(v)
  {
    var n := Len(v);
    ToBytes(Tag(n) * Pow256(n - 1) + v, n)
  }

  function Read(s: seq<byte>): (r: Parsed<nat>)
    ensures r.Got? ==> |r.rest| < |s| && r.rest == s[|s| - |r.rest|..]
  {
    if s == [] || |s| < FirstByteLen(s[0]) then Short
    else
      var n := FirstByteLen(s[0]);
      Got((s[0] % 0x40) * Pow256(n - 1) + FromBytes(s[1..n]), s[n..])
  }

  /** What has been read stays read when more bytes arrive. */
  lemma ReadExtends(a: seq<byte>, b: seq<byte>)
    requires Read(a).Got?
    ensures Read(a + b) == Got(Read(a).value, Read(a).rest + b)
  {
    var n := FirstByteLen(a[0]);
    assert (a + b)[1..n] == a[1..n];
    assert (a + b)[n..] == a[n..] + b;
  }

  /** The top digit of the value and the length bits share the first byte. */
  lemma EncodeHead(v: nat) returns (hi: nat, lo: nat)
    requires v < LIMIT
    ensures hi < 0x40 && lo < Pow256(Len(v) - 1) && v == hi * Pow256(Len(v) - 1) + lo
    ensures Encode(v) == [Tag(Len(v)) + hi] + ToBytes(lo, Len(v) - 1)
  {
    PowersOf256();
    var n := Len(v);
    var p := Pow256(n - 1);
    hi, lo := v / p, v % p;
    assert hi < 0x40;
    assert v == hi * p + lo;
    assert Tag(n) * p + v == (Tag(n) + hi) * p + lo;
    ToBytesHead(Tag(n) + hi, lo, n - 1);
  }

  lemma TaggedByte(n: nat, hi: nat)
    requires n in {1, 2, 4, 8} && hi < 0x40
    ensures FirstByteLen(Tag(n) + hi) == n && (Tag(n) + hi) % 0x40 == hi
  {
  }

  lemma ReadHead(d: byte, tail: seq<byte>, t: seq<byte>)
    requires FirstByteLen(d) == 1 + |tail|
    ensures Read([d] + tail + t) == Got((d % 0x40) * Pow256(|tail|) + FromBytes(tail), t)
  {
    hide FromBytes, Pow256, FirstByteLen;
    var s := [d] + tail + t;
    assert s[1..1 + |tail|] == tail;
    assert s[1 + |tail|..] == t;
  }

  /** Reading undoes writing, whatever follows. */
  lemma ReadEncode(v: nat, t: seq<byte>)
    requires v < LIMIT
    ensures Read(Encode(v) + t) == Got(v, t)
  {
    var hi, lo := EncodeHead(v);
    TaggedByte(Len(v), hi);
    ReadHead(Tag(Len(v)) + hi, ToBytes(lo, Len(v) - 1), t);
    FromToBytes(lo, Len(v) - 1);
  }

  /** Every encoding that reads as `v` is at least as long as `Encode(v)`, and `v` is in range. */
  lemma EncodeIsShortest(s: seq<byte>)
    requires Read(s).Got?
    ensures var Got(v, rest) := Read(s);
            v < LIMIT && Len(v) <= FirstByteLen(s[0]) == |s| - |rest|
  {
    var n := FirstByteLen(s[0]);
    ToFromBytes(s[1..n]);
    LenBound(s[0] % 0x40, FromBytes(s[1..n]), n);
  }

  lemma LenBound(d: nat, v: nat, n: nat)
    requires d < 0x40 && n in {1, 2, 4, 8} && v < Pow256(n - 1)
    ensures 0 < Len(d * Pow256(n - 1) + v) <= n
  {
    PowersOf256();
    if n == 1 {
    } else if n == 2 {
      assert d * Pow256(n - 1) == d * 0x100;
    } else if n == 4 {
      assert d * Pow256(n - 1) == d * 0x100_0000;
    } else {
      assert d * Pow256(n - 1) == d * 0x100_0000_0000_0000;
    }
  }

  /** A string preceded by its length. */
  function EncodeString(s: seq<byte>): (e: seq<byte>)
    requires |s| < LIMIT
    ensures |e| == Len(|s|) + |s|
  {
    Encode(|s|) + s
  }

  /** Exactly `n` bytes. */
  function Take(s: seq<byte>, n: nat): (r: Parsed<seq<byte>>)
    ensures r.Got? ==> |r.value| == n && s == r.value + r.rest
  {
    if n <= |s| then Got(s[..n], s[n..]) else Short
  }

  function ReadString(s: seq<byte>): (r: Parsed<seq<byte>>)
    ensures r.Got? ==> |r.rest| < |s| && r.rest == s[|s| - |r.rest|..]
  {
    match Read(s)
    case Short => Short
    case Got(n, rest) => Take(rest, n)
  }

  lemma TakeExtends(a: seq<byte>, b: seq<byte>, n: nat)
    requires Take(a, n).Got?
    ensures Take(a + b, n) == Got(Take(a, n).value, Take(a, n).rest + b)
  {
    assert (a + b)[..n] == a[..n];
    assert (a + b)[n..] == a[n..] + b;
  }

  lemma ReadStringExtends(a: seq<byte>, b: seq<byte>)
    requires ReadString(a).Got?
    ensures ReadString(a + b) == Got(ReadString(a).value, ReadString(a).rest + b)
  {
    ReadExtends(a, b);
    TakeExtends(Read(a).rest, b, Read(a).value);
  }

  lemma ReadStringEncode(s: seq<byte>, t: seq<byte>)
    requires |s| < LIMIT
    ensures ReadString(EncodeString(s) + t) == Got(s, t)
  {
    assert EncodeString(s) + t == Encode(|s|) + (s + t);
    ReadEncode(|s|, s + t);
    assert (s + t)[..|s|] == s && (s + t)[|s|..] == t;
  }

  // ---------------------------------------------------------------------------------------------
  // The bytes of a varint, in any of the four lengths

  /** Two bits of the first byte tell the length; the others, with all further bytes, are the value. */
  predicate IsVarint(b: seq<byte>, v: nat) {
    && b != []
    && |b| == (if b[0] < 0x40 then 1 else if b[0] < 0x80 then 2 else if b[0] < 0xc0 then 4 else 8)
    && FromBytes(b) == b[0] / 0x40 * 0x40 * Pow256(|b| - 1) + v
  }

  lemma HeadBits(b: seq<byte>)
    requires b != []
    ensures FromBytes(b) == b[0] / 0x40 * 0x40 * Pow256(|b| - 1) + (b[0] % 0x40 * Pow256(|b| - 1) + FromBytes(b[1..]))
  {
    hide FromBytes, Pow256;
    FromBytesHead(b);
    var p, q := Pow256(|b| - 1), b[0] / 0x40 * 0x40;
    assert b[0] == q + b[0] % 0x40;
    assert b[0] * p == q * p + b[0] % 0x40 * p;
  }

  /** Reading takes a varint off the front, and nothing else. */
  lemma ReadExactly(b: seq<byte>, v: nat, rest: seq<byte>)
    requires b != []
    ensures Read(b + rest) == Got(v, rest) <==> IsVarint(b, v)
  {
    hide FromBytes, Pow256;
    HeadBits(b);
    var s := b + rest;
    assert s[..|b|] == b && s[|b|..] == rest && s[1..|b|] == b[1..];
  }

  lemma ReadIsVarint(s: seq<byte>) returns (b: seq<byte>)
    requires Read(s).Got?
    ensures IsVarint(b, Read(s).value) && s == b + Read(s).rest
  {
    hide FromBytes, Pow256, IsVarint;
    b := s[..|s| - |Read(s).rest|];
    ReadExactly(b, Read(s).value, Read(s).rest);
  }

  /** Reading fails if and only if no varint is at the front. */
  lemma ReadsNothingExactly(s: seq<byte>)
    ensures Read(s).Short? <==> forall n: nat, v: nat :: n <= |s| ==> !IsVarint(s[..n], v)
  {
    hide FromBytes, Pow256;
    if Read(s).Got? {
      var b := ReadIsVarint(s);
      assert s[..|b|] == b;
    }
    forall n: nat, v: nat | n <= |s| && IsVarint(s[..n], v)
      ensures Read(s).Got?
    {
      ReadExactly(s[..n], v, s[n..]);
      assert s[..n] + s[n..] == s;
    }
  }
}
