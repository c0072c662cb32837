/** Bytes, network byte order, and the result type shared by the parsers. */
module Bytes {
  type byte = b: int | 0 <= b < 256

  datatype Option<+T> = None | Some(value: T)

  /** What a parser makes of the bytes in front of it: not enough of them yet, or a value and
      the bytes that follow it. */
  datatype Parsed<+T> = Short | Got(value: T, rest: seq<byte>)

  function Max(a: int, b: int): int {
    if a < b then b else a
  }

  function Min(a: int, b: int): int {
    if a < b then a else b
  }

  function Pow256(n: nat): (p: nat)
    ensures p > 0
  {
    if n == 0 then 1 else 256 * Pow256(n - 1)
  }

  /** The low `n` bytes of `v`, most significant first. */
  function ToBytes(v: nat, n: nat): (s: seq<byte>)
    ensures |s| == n
  {
    if n == 0 then [] else ToBytes(v / 256, n - 1) + [v % 256]
  }

  /** The number that `s` spells, most significant byte first. */
  function FromBytes(s: seq<byte>): (v: nat)
  {
    if s == [] then 0 else FromBytes(s[..|s| - 1]) * 256 + s[|s| - 1]
  }

  lemma {:induction false} FromToBytes(v: nat, n: nat)
    requires v < Pow256(n)
    ensures FromBytes(ToBytes(v, n)) == v
  {
    if n > 0 {
      FromToBytes(v / 256, n - 1);
      assert ToBytes(v, n)[..n - 1] == ToBytes(v / 256, n - 1);
    }
  }

  lemma {:induction false} ToFromBytes(s: seq<byte>)
    ensures FromBytes(s) < Pow256(|s|)
    ensures ToBytes(FromBytes(s), |s|) == s
  {
    if s != [] {
      ToFromBytes(s[..|s| - 1]);
      assert s == s[..|s| - 1] + [s[|s| - 1]];
    }
  }

  /** The first byte of a big-endian number is its most significant digit. */
  lemma {:induction false} FromBytesHead(s: seq<byte>)
    requires s != []
    ensures FromBytes(s) == s[0] * Pow256(|s| - 1) + FromBytes(s[1..])
  {
    if |s| == 1 {
      assert s[..0] == [] && s[1..] == [];
    } else {
      var t := s[..|s| - 1];
      FromBytesHead(t);
      assert s[1..][..|s| - 2] == t[1..];
      var p := Pow256(|s| - 2);
      assert Pow256(|s| - 1) == 256 * p;
      assert FromBytes(s) == (s[0] * p + FromBytes(t[1..])) * 256 + s[|s| - 1];
      assert s[0] * p * 256 == s[0] * (256 * p);
    }
  }

  lemma Times256(a: nat, n: nat)
    requires n > 0
    ensures a * Pow256(n) == 256 * (a * Pow256(n - 1))
  {
    var p := Pow256(n - 1);
    assert Pow256(n) == 256 * p;
    hide Pow256;
    assert a * (256 * p) == 256 * (a * p);
  }

  lemma Shifted(x: nat, v: nat)
    ensures (256 * x + v) / 256 == x + v / 256
    ensures (256 * x + v) % 256 == v % 256
  {
  }

  /** What is written of the top digit first, and the remaining digits after it. */
  lemma {:induction false} ToBytesTop(d: nat, v: nat, n: nat)
    requires v < Pow256(n)
    ensures ToBytes(d * Pow256(n) + v, n + 1) == [d % 256] + ToBytes(v, n)
  {
    if n > 0 {
      var x := d * Pow256(n - 1);
      assert v / 256 < Pow256(n - 1);
      Times256(d, n);
      Shifted(x, v);
      hide Pow256;
      ToBytesTop(d, v / 256, n - 1);
      assert ToBytes(256 * x + v, n + 1) == ToBytes(x + v / 256, n) + [v % 256];
    } else {
      assert ToBytes(d, 0) == [];
    }
  }

  /** A top digit that is a byte. */
  lemma ToBytesHead(d: byte, v: nat, n: nat)
    requires v < Pow256(n)
    ensures ToBytes(d * Pow256(n) + v, n + 1) == [d] + ToBytes(v, n)
  {
    hide ToBytes, Pow256;
    ToBytesTop(d, v, n);
  }

  lemma PowersOf256()
    ensures Pow256(0) == 1
    ensures Pow256(1) == 0x100
    ensures Pow256(2) == 0x1_0000
    ensures Pow256(3) == 0x100_0000
    ensures Pow256(4) == 0x1_0000_0000
    ensures Pow256(5) == 0x100_0000_0000
    ensures Pow256(6) == 0x1_0000_0000_0000
    ensures Pow256(7) == 0x100_0000_0000_0000
    ensures Pow256(8) == 0x1_0000_0000_0000_0000
  {
    assert Pow256(2) == 256 * Pow256(1);
    assert Pow256(3) == 256 * Pow256(2);
    assert Pow256(4) == 256 * Pow256(3);
    assert Pow256(5) == 256 * Pow256(4);
    assert Pow256(6) == 256 * Pow256(5);
    assert Pow256(7) == 256 * Pow256(6);
    assert Pow256(8) == 256 * Pow256(7);
  }

  lemma DivDiv(v: nat, k: nat)
    ensures v / 256 / Pow256(k) == v / Pow256(k + 1)
  {
    var p := Pow256(k);
    assert Pow256(k + 1) == 256 * p;
    hide Pow256;
    var q, r := Divided(v, 256 * p);
    assert 256 * p * q == 256 * (p * q);
    Shifted(p * q, r);
    assert r / 256 < p;
    QuotientUnique(v / 256, p, q, r / 256);
  }

  lemma Divided(v: nat, p: nat) returns (q: nat, r: nat)
    requires p > 0
    ensures q == v / p && r == v % p && r < p && v == p * q + r
  {
    q, r := v / p, v % p;
  }

  lemma QuotientUnique(a: nat, d: nat, q: nat, r: nat)
    requires d > 0 && a == d * q + r && r < d
    ensures a / d == q
  {
    var q' := a / d;
    assert a == d * q' + a % d;
    assert d * (q' - q) == d * q' - d * q;
    SmallMultiple(d, q' - q);
  }

  lemma SmallMultiple(d: int, x: int)
    requires -d < d * x < d
    ensures x == 0
  {
  }

  /** The byte at position `k`, counted from the least significant. */
  function Digit(v: nat, k: nat): nat {
    v / Pow256(k) % 256
  }

  lemma DigitShifted(v: nat, k: nat)
    ensures Digit(v / 256, k) == Digit(v, k + 1)
  {
    DivDiv(v, k);
  }

  /** A digit above position `k` does not show in the byte at position `k`. */
  lemma {:induction false} HigherDigitsDrop(c: nat, n: nat, v: nat, k: nat)
    requires k < n
    ensures Digit(c * Pow256(n) + v, k) == Digit(v, k)
  {
    var x := c * Pow256(n - 1);
    Times256(c, n);
    Shifted(x, v);
    if k > 0 {
      hide Pow256, Digit;
      HigherDigitsDrop(c, n - 1, v / 256, k - 1);
      DigitShifted(256 * x + v, k - 1);
      DigitShifted(v, k - 1);
    }
  }

  /** Each byte on its own, by shifting and masking. */
  lemma {:induction false} ToBytesAt(v: nat, n: nat, i: nat)
    requires i < n
    ensures ToBytes(v, n)[i] == v / Pow256(n - 1 - i) % 256
  {
    if i < n - 1 {
      ToBytesAt(v / 256, n - 1, i);
      DivDiv(v, n - 2 - i);
    }
  }

  lemma FromBytes1(s: seq<byte>)
    requires |s| == 1
    ensures FromBytes(s) == s[0]
  {
    assert s[..0] == [];
  }

  lemma FromBytes2(s: seq<byte>)
    requires |s| == 2
    ensures FromBytes(s) == (s[0] as int) * 0x100 + s[1]
  {
    FromBytes1(s[..1]);
  }

  lemma FromBytes3(s: seq<byte>)
    requires |s| == 3
    ensures FromBytes(s) == (s[0] as int) * 0x1_0000 + (s[1] as int) * 0x100 + s[2]
  {
    FromBytes2(s[..2]);
  }

  lemma FromBytes7(s: seq<byte>)
    requires |s| == 7
    ensures FromBytes(s) ==
            (s[0] as int) * 0x1_0000_0000_0000 + (s[1] as int) * 0x100_0000_0000
            + (s[2] as int) * 0x1_0000_0000 + (s[3] as int) * 0x100_0000
            + (s[4] as int) * 0x1_0000 + (s[5] as int) * 0x100 + s[6]
  {
    FromBytes3(s[..6][..5][..4][..3]);
    assert s[..6][..5] == s[..5] && s[..5][..4] == s[..4] && s[..4][..3] == s[..3];
  }
}
