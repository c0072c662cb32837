/** A cursor over received bytes. */
module DataReader {
  import opened Bytes
  import VarInt62

  // ---------------------------------------------------------------------------------------------
  // The four lengths of a varint

  lemma ReadNothing(s: seq<byte>)
    ensures s == [] || |s| < VarInt62.FirstByteLen(s[0]) ==> VarInt62.Read(s).Short?
  {
  }

  lemma Read1(s: seq<byte>)
    requires s != [] && s[0] < 0x40
    ensures VarInt62.Read(s) == Got(s[0] % 0x40, s[1..])
  {
    assert FromBytes(s[1..1]) == 0 && Pow256(0) == 1;
  }

  lemma Read2(s: seq<byte>)
    requires |s| >= 2 && 0x40 <= s[0] < 0x80
    ensures VarInt62.Read(s) == Got((s[0] % 0x40) as int * 0x100 + s[1], s[2..])
  {
    PowersOf256();
    FromBytes1(s[1..2]);
    hide FromBytes, Pow256;
  }

  lemma Read4(s: seq<byte>)
    requires |s| >= 4 && 0x80 <= s[0] < 0xc0
    ensures VarInt62.Read(s)
         == Got((s[0] % 0x40) as int * 0x100_0000 + (s[1] as int) * 0x1_0000 + (s[2] as int) * 0x100 + s[3], s[4..])
  {
    PowersOf256();
    FromBytes3(s[1..4]);
    hide FromBytes, Pow256;
  }

  lemma Read8(s: seq<byte>)
    requires |s| >= 8 && s[0] >= 0xc0
    ensures VarInt62.Read(s)
         == Got((s[0] % 0x40) as int * 0x100_0000_0000_0000 + (s[1] as int) * 0x1_0000_0000_0000
                + (s[2] as int) * 0x100_0000_0000 + (s[3] as int) * 0x1_0000_0000 + (s[4] as int) * 0x100_0000
                + (s[5] as int) * 0x1_0000 + (s[6] as int) * 0x100 + s[7], s[8..])
  {
    PowersOf256();
    FromBytes7(s[1..8]);
    hide FromBytes, Pow256;
  }

  class QuicheDataReader {
    const data: seq<byte>
    var pos: nat

    ghost predicate Valid()
      reads this
    {
      pos <= |data|
    }

    constructor (data: seq<byte>)
      ensures Valid() && Remaining() == data && this.data == data
    {
      this.data := data;
      pos := 0;
    }

    /** The bytes not yet read. */
    function Remaining(): (s: seq<byte>)
      reads this
      requires Valid()
    {
      data[pos..]
    }

    method IsDoneReading() returns (done: bool)
      requires Valid()
      ensures done <==> Remaining() == []
    {
      done := |data| == pos;
    }

    method PeekRemainingPayload() returns (s: seq<byte>)
      requires Valid()
      ensures s == Remaining()
    {
      s := data[pos..];
    }

    method PreviouslyReadLength() returns (n: nat)
      requires Valid()
      ensures n <= |data| && data[n..] == Remaining()
    {
      n := pos;
    }

    method ReadRemainingPayload() returns (s: seq<byte>)
      requires Valid()
      modifies this
      ensures Valid() && s == old(Remaining()) && Remaining() == []
    {
      s := data[pos..];
      pos := |data|;
    }

    /** Success consumes the integer; failure consumes nothing. */
    method ReadVarInt62() returns (ok: bool, result: nat)
      requires Valid()
      modifies this
      ensures Valid()
      ensures ok == VarInt62.Read(old(Remaining())).Got?
      ensures ok ==> VarInt62.Read(old(Remaining())) == Got(result, Remaining())
      ensures !ok ==> Remaining() == old(Remaining())
    {
      hide VarInt62.Read;
      ok, result := false, 0;
      var remaining := |data| - pos;
      ghost var s := Remaining();
      ReadNothing(s);
      if remaining != 0 {
        var next := pos;
        if data[next] >= 0xc0 {
          if remaining >= 8 {
            Read8(s);
            result := (data[next] % 0x40) as int * 0x100_0000_0000_0000
                      + (data[next + 1] as int) * 0x1_0000_0000_0000 + (data[next + 2] as int) * 0x100_0000_0000
                      + (data[next + 3] as int) * 0x1_0000_0000 + (data[next + 4] as int) * 0x100_0000
                      + (data[next + 5] as int) * 0x1_0000 + (data[next + 6] as int) * 0x100 + data[next + 7];
            pos := pos + 8;
            ok := true;
          }
        } else if data[next] >= 0x80 {
          if remaining >= 4 {
            Read4(s);
            result := (data[next] % 0x40) as int * 0x100_0000 + (data[next + 1] as int) * 0x1_0000
                      + (data[next + 2] as int) * 0x100 + data[next + 3];
            pos := pos + 4;
            ok := true;
          }
        } else if data[next] >= 0x40 {
          if remaining >= 2 {
            Read2(s);
            result := (data[next] % 0x40) as int * 0x100 + data[next + 1];
            pos := pos + 2;
            ok := true;
          }
        } else {
          Read1(s);
          result := data[next] % 0x40;
          pos := pos + 1;
          ok := true;
        }
      }
    }

    /** Failure moves the cursor to the end, so that later reads fail too. */
    method ReadStringPiece(size: nat) returns (ok: bool, result: seq<byte>)
      requires Valid()
      modifies this
      ensures Valid()
      ensures ok == VarInt62.Take(old(Remaining()), size).Got?
      ensures ok ==> VarInt62.Take(old(Remaining()), size) == Got(result, Remaining())
      ensures !ok ==> Remaining() == []
    {
      if size > |data| - pos {
        pos := |data|;
        return false, [];
      }
      result := data[pos..pos + size];
      assert result == Remaining()[..size];
      pos := pos + size;
      ok := true;
    }

    /** A missing length leaves the cursor in place, a missing string moves it to the end. */
    method ReadStringPieceVarInt62() returns (ok: bool, result: seq<byte>)
      requires Valid()
      modifies this
      ensures Valid()
      ensures ok == VarInt62.ReadString(old(Remaining())).Got?
      ensures ok ==> VarInt62.ReadString(old(Remaining())) == Got(result, Remaining())
      ensures !ok && VarInt62.Read(old(Remaining())).Short? ==> Remaining() == old(Remaining())
      ensures !ok && VarInt62.Read(old(Remaining())).Got? ==> Remaining() == []
    {
      var resultLength;
      ok, resultLength := ReadVarInt62();
      result := [];
      if ok {
        ok, result := ReadStringPiece(resultLength);
      }
    }

    /** A big-endian unsigned integer of `size` bytes. */
    method ReadUInt(size: nat) returns (ok: bool, result: nat)
      requires Valid()
      modifies this
      ensures Valid()
      ensures ok == (size <= |old(Remaining())|)
      ensures ok ==> result == FromBytes(old(Remaining())[..size]) && Remaining() == old(Remaining())[size..]
      ensures !ok ==> Remaining() == []
    {
      var piece;
      ok, piece := ReadStringPiece(size);
      result := if ok then FromBytes(piece) else 0;
    }
  }
}
