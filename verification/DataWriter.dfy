/** A cursor over a fixed-size output buffer. */
module DataWriter {
  import opened Bytes
  import VarInt62

  class QuicheDataWriter {
    const buffer: array<byte>
    var length: nat

    ghost predicate Valid()
      reads this
    {
      length <= buffer.Length
    }

    constructor (size: nat)
      ensures Valid() && fresh(buffer) && buffer.Length == size && Written() == []
    {
      buffer := new byte[size];
      length := 0;
    }

    /** The bytes written so far. */
    function Written(): (s: seq<byte>)
      reads this, buffer
      requires Valid()
    {
      buffer[..length]
    }

    function Room(): (n: nat)
      reads this
      requires Valid()
    {
      buffer.Length - length
    }

    method WriteBytes(data: seq<byte>) returns (ok: bool)
      requires Valid()
      modifies this, buffer
      ensures Valid()
      ensures ok == (|data| <= old(Room()))
      ensures Written() == if ok then old(Written()) + data else old(Written())
    {
      if buffer.Length - length < |data| {
        return false;
      }
      var i := 0;
      while i < |data|
        invariant 0 <= i <= |data| && length == old(length)
        invariant buffer[..length + i] == old(Written()) + data[..i]
      {
        buffer[length + i] := data[i];
        i := i + 1;
      }
      assert data[..i] == data;
      length := length + |data|;
      ok := true;
    }

    /** Fills the rest of the buffer with zeros. */
    method WritePadding()
      requires Valid()
      modifies this, buffer
      ensures Valid() && Room() == 0
      ensures Written() == old(Written()) + Zeros(old(Room()))
    {
      var i := length;
      while i < buffer.Length
        invariant length == old(length) <= i <= buffer.Length
        invariant buffer[..i] == old(Written()) + Zeros(i - length)
      {
        buffer[i] := 0;
        i := i + 1;
      }
      length := buffer.Length;
    }

    /** Fails when the value has no encoding or does not fit, and then writes nothing. */
    method WriteVarInt62(value: nat) returns (ok: bool)
      requires Valid()
      modifies this, buffer
      ensures Valid()
      ensures ok == (value < VarInt62.LIMIT && VarInt62.Len(value) <= old(Room()))
      ensures Written() == if ok then old(Written()) + VarInt62.Encode(value) else old(Written())
    {
      var remaining := buffer.Length - length;
      ok := false;
      if value < VarInt62.LIMIT {
        if value >= 0x4000_0000 {
          if remaining >= 8 {
            Put8(value);
            ok := true;
          }
        } else if value >= 0x4000 {
          if remaining >= 4 {
            Put4(value);
            ok := true;
          }
        } else if value >= 0x40 {
          if remaining >= 2 {
            Put2(value);
            ok := true;
          }
        } else if remaining >= 1 {
          assert VarInt62.Encode(value) == [value] by {
            assert Pow256(0) == 1 && ToBytes(value / 256, 0) == [];
          }
          buffer[length] := value % 0x40;
          length := length + 1;
          ok := true;
        }
      }
    }

    method Put8(value: nat)
      requires Valid() && Room() >= 8 && 0x4000_0000 <= value < VarInt62.LIMIT
      modifies this, buffer
      ensures Valid() && Written() == old(Written()) + VarInt62.Encode(value)
    {
      hide VarInt62.Encode;
      Encode8(value);
      Store4((value / 0x100_0000_0000_0000) % 0x40 + 0xc0, (value / 0x1_0000_0000_0000) % 0x100,
             (value / 0x100_0000_0000) % 0x100, (value / 0x1_0000_0000) % 0x100);
      Store4((value / 0x100_0000) % 0x100, (value / 0x1_0000) % 0x100, (value / 0x100) % 0x100, value % 0x100);
    }

    method Store4(a: byte, b: byte, c: byte, d: byte)
      requires Valid() && Room() >= 4
      modifies this, buffer
      ensures Valid() && Written() == old(Written()) + [a, b, c, d]
    {
      buffer[length] := a;
      buffer[length + 1] := b;
      buffer[length + 2] := c;
      buffer[length + 3] := d;
      length := length + 4;
    }

    method Put4(value: nat)
      requires Valid() && Room() >= 4 && 0x4000 <= value < 0x4000_0000
      modifies this, buffer
      ensures Valid() && Written() == old(Written()) + VarInt62.Encode(value)
    {
      hide VarInt62.Encode;
      Encode4(value);
      Store4((value / 0x100_0000) % 0x40 + 0x80, (value / 0x1_0000) % 0x100, (value / 0x100) % 0x100, value % 0x100);
    }

    method Put2(value: nat)
      requires Valid() && Room() >= 2 && 0x40 <= value < 0x4000
      modifies this, buffer
      ensures Valid() && Written() == old(Written()) + VarInt62.Encode(value)
    {
      var next := length;
      buffer[next] := (value / 0x100) % 0x40 + 0x40;
      buffer[next + 1] := value % 0x100;
      length := length + 2;
      Encode2(value);
    }

    method WriteStringPieceVarInt62(s: seq<byte>) returns (ok: bool)
      requires Valid()
      modifies this, buffer
      ensures Valid()
      ensures ok == (|s| < VarInt62.LIMIT && VarInt62.Len(|s|) + |s| <= old(Room()))
      ensures ok ==> Written() == old(Written()) + VarInt62.EncodeString(s)
    {
      ok := WriteVarInt62(|s|);
      if ok && s != [] {
        ok := WriteBytes(s);
      }
    }

    /** A big-endian unsigned integer of `size` bytes. */
    method WriteUInt(value: nat, size: nat) returns (ok: bool)
      requires Valid()
      modifies this, buffer
      ensures Valid()
      ensures ok == (size <= old(Room()))
      ensures Written() == if ok then old(Written()) + ToBytes(value, size) else old(Written())
    {
      ok := WriteBytes(ToBytes(value, size));
    }
  }

  function Zeros(n: nat): (s: seq<byte>)
    ensures |s| == n
  {
    seq(n, _ => 0)
  }

  /** Byte `i` of an encoding, shifted out of the value. */
  lemma EncodeAt(v: nat, i: nat)
    requires v < VarInt62.LIMIT && 0 < i < VarInt62.Len(v)
    ensures VarInt62.Encode(v)[i] == v / Pow256(VarInt62.Len(v) - 1 - i) % 256
  {
    var n := VarInt62.Len(v);
    ToBytesAt(VarInt62.Tag(n) * Pow256(n - 1) + v, n, i);
    HigherDigitsDrop(VarInt62.Tag(n), n - 1, v, n - 1 - i);
  }

  /** The first byte: the length bits and the top six bits of the value. */
  lemma EncodeFirst(v: nat)
    requires v < VarInt62.LIMIT
    ensures VarInt62.Encode(v)[0] == VarInt62.Tag(VarInt62.Len(v)) + v / Pow256(VarInt62.Len(v) - 1) % 0x40
  {
    hide VarInt62.Encode, VarInt62.Len, Pow256, ToBytes;
    var hi, lo := VarInt62.EncodeHead(v);
    QuotientUnique(v, Pow256(VarInt62.Len(v) - 1), hi, lo);
  }

  lemma Encode8(v: nat)
    requires 0x4000_0000 <= v < VarInt62.LIMIT
    ensures VarInt62.Encode(v) ==
            [(v / 0x100_0000_0000_0000) % 0x40 + 0xc0, (v / 0x1_0000_0000_0000) % 0x100,
             (v / 0x100_0000_0000) % 0x100, (v / 0x1_0000_0000) % 0x100, (v / 0x100_0000) % 0x100,
             (v / 0x1_0000) % 0x100, (v / 0x100) % 0x100, v % 0x100]
  {
    hide VarInt62.Encode;
    PowersOf256();
    EncodeFirst(v);
    EncodeAt(v, 1);
    EncodeAt(v, 2);
    EncodeAt(v, 3);
    EncodeAt(v, 4);
    EncodeAt(v, 5);
    EncodeAt(v, 6);
    EncodeAt(v, 7);
  }

  lemma Encode4(v: nat)
    requires 0x4000 <= v < 0x4000_0000
    ensures VarInt62.Encode(v) ==
            [(v / 0x100_0000) % 0x40 + 0x80, (v / 0x1_0000) % 0x100, (v / 0x100) % 0x100, v % 0x100]
  {
    hide VarInt62.Encode;
    PowersOf256();
    EncodeFirst(v);
    EncodeAt(v, 1);
    EncodeAt(v, 2);
    EncodeAt(v, 3);
  }

  lemma Encode2(v: nat)
    requires 0x40 <= v < 0x4000
    ensures VarInt62.Encode(v) == [(v / 0x100) % 0x40 + 0x40, v % 0x100]
  {
    hide VarInt62.Encode;
    PowersOf256();
    EncodeFirst(v);
    EncodeAt(v, 1);
  }
}
