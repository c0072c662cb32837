/** Typed fields, the length they announce and the bytes they write. */
module WireSerialization {
  import opened Bytes
  import opened DataWriter
  import VarInt62

  /** A field; composite types are spans of other fields. */
  datatype Wire =
    | UInt(value: nat, size: nat)
    | VarInt(value: nat)
    | Raw(bytes: seq<byte>)
    | VarIntString(bytes: seq<byte>)
    | UIntString(bytes: seq<byte>, size: nat)
    | Optional(field: Option<Wire>)
    | Span(fields: seq<Wire>)

  /** The length a field announces; a varint out of range announces none. */
  function LengthOnWire(w: Wire): (n: nat)
    decreases w
  {
    match w
    case UInt(_, size) => size
    case VarInt(v) => VarInt62.Len(v)
    case Raw(b) => |b|
    case VarIntString(b) => VarInt62.Len(|b|) + |b|
    case UIntString(b, size) => size + |b|
    case Optional(None) => 0
    case Optional(Some(f)) => LengthOnWire(f)
    case Span(fs) => TotalLength(fs)
  }

  function TotalLength(ws: seq<Wire>): (n: nat)
    decreases ws
  {
    if ws == [] then 0 else LengthOnWire(ws[0]) + TotalLength(ws[1..])
  }

  function Joined(a: Option<seq<byte>>, b: Option<seq<byte>>): Option<seq<byte>> {
    if a.None? || b.None? then None else Some(a.value + b.value)
  }

  function VarIntBytes(v: nat): Option<seq<byte>> {
    if v < VarInt62.LIMIT then Some(VarInt62.Encode(v)) else None
  }

  /** The bytes of a field; nothing if a varint in it is out of range. */
  function BytesOnWire(w: Wire): (r: Option<seq<byte>>)
    decreases w
  {
    match w
    case UInt(v, size) => Some(ToBytes(v, size))
    case VarInt(v) => VarIntBytes(v)
    case Raw(b) => Some(b)
    case VarIntString(b) => Joined(VarIntBytes(|b|), Some(b))
    case UIntString(b, size) => Some(ToBytes(|b|, size) + b)
    case Optional(None) => Some([])
    case Optional(Some(f)) => BytesOnWire(f)
    case Span(fs) => AllBytes(fs)
  }

  function AllBytes(ws: seq<Wire>): (r: Option<seq<byte>>)
    decreases ws
  {
    if ws == [] then Some([]) else Joined(BytesOnWire(ws[0]), AllBytes(ws[1..]))
  }

  /** The length that is announced is the length that is written. */
  lemma {:induction false} LengthIsExact(w: Wire)
    ensures BytesOnWire(w).Some? ==> |BytesOnWire(w).value| == LengthOnWire(w)
    decreases w
  {
    match w
    case Optional(Some(f)) => LengthIsExact(f);
    case Span(fs) => TotalLengthIsExact(fs);
    case _ =>
  }

  lemma {:induction false} TotalLengthIsExact(ws: seq<Wire>)
    ensures AllBytes(ws).Some? ==> |AllBytes(ws).value| == TotalLength(ws)
    decreases ws
  {
    if ws != [] {
      LengthIsExact(ws[0]);
      TotalLengthIsExact(ws[1..]);
    }
  }

  lemma JoinedAssociative(a: Option<seq<byte>>, b: Option<seq<byte>>, c: Option<seq<byte>>)
    ensures Joined(a, Joined(b, c)) == Joined(Joined(a, b), c)
  {
    if a.Some? && b.Some? && c.Some? {
      assert a.value + (b.value + c.value) == a.value + b.value + c.value;
    }
  }

  lemma JoinedNothing(a: Option<seq<byte>>)
    ensures Joined(Some([]), a) == a
  {
    if a.Some? {
      assert [] + a.value == a.value;
    }
  }

  lemma {:induction false} AllBytesConcat(vs: seq<Wire>, ws: seq<Wire>)
    ensures AllBytes(vs + ws) == Joined(AllBytes(vs), AllBytes(ws))
    ensures TotalLength(vs + ws) == TotalLength(vs) + TotalLength(ws)
  {
    if vs == [] {
      assert vs + ws == ws;
      JoinedNothing(AllBytes(ws));
    } else {
      hide BytesOnWire, LengthOnWire;
      AllBytesConcat(vs[1..], ws);
      assert (vs + ws)[1..] == vs[1..] + ws;
      JoinedAssociative(BytesOnWire(vs[0]), AllBytes(vs[1..]), AllBytes(ws));
    }
  }

  // ---------------------------------------------------------------------------------------------
  // Writing

  /** Whether a field can be written into what is left of a buffer. */
  predicate Fits(bytes: Option<seq<byte>>, room: nat) {
    bytes.Some? && |bytes.value| <= room
  }

  method SerializeString(writer: QuicheDataWriter, prefix: Wire, b: seq<byte>) returns (ok: bool)
    requires writer.Valid()
    requires prefix.VarInt? || prefix.UInt?
    modifies writer, writer.buffer
    ensures writer.Valid()
    ensures ok <==> Fits(Joined(BytesOnWire(prefix), Some(b)), old(writer.Room()))
    ensures ok ==> writer.Written() == old(writer.Written()) + Joined(BytesOnWire(prefix), Some(b)).value
  {
    hide BytesOnWire;
    ok := SerializeNumber(writer, prefix);
    if ok {
      ok := writer.WriteBytes(b);
    }
  }

  method SerializeNumber(writer: QuicheDataWriter, w: Wire) returns (ok: bool)
    requires writer.Valid()
    requires w.VarInt? || w.UInt?
    modifies writer, writer.buffer
    ensures writer.Valid()
    ensures ok <==> Fits(BytesOnWire(w), old(writer.Room()))
    ensures ok ==> writer.Written() == old(writer.Written()) + BytesOnWire(w).value
  {
    hide VarInt62.Encode, ToBytes;
    if w.VarInt? {
      ok := writer.WriteVarInt62(w.value);
    } else {
      ok := writer.WriteUInt(w.value, w.size);
    }
  }

  method SerializeIntoWriter(writer: QuicheDataWriter, w: Wire) returns (ok: bool)
    requires writer.Valid()
    modifies writer, writer.buffer
    ensures writer.Valid()
    ensures ok <==> Fits(BytesOnWire(w), old(writer.Room()))
    ensures ok ==> writer.Written() == old(writer.Written()) + BytesOnWire(w).value
    decreases w
  {
    match w {
      case UInt(_, _) => ok := SerializeNumber(writer, w);
      case VarInt(_) => ok := SerializeNumber(writer, w);
      case Raw(b) => ok := writer.WriteBytes(b);
      case VarIntString(b) => ok := SerializeString(writer, VarInt(|b|), b);
      case UIntString(b, size) => ok := SerializeString(writer, UInt(|b|, size), b);
      case Optional(field) =>
        if field.Some? {
          ok := SerializeIntoWriter(writer, field.value);
        } else {
          ok := true;
        }
      case Span(fs) => ok := SerializeAll(writer, fs);
    }
  }

  /** One field after the other, until one fails. */
  method SerializeAll(writer: QuicheDataWriter, ws: seq<Wire>) returns (ok: bool)
    requires writer.Valid()
    modifies writer, writer.buffer
    ensures writer.Valid()
    ensures ok <==> Fits(AllBytes(ws), old(writer.Room()))
    ensures ok ==> writer.Written() == old(writer.Written()) + AllBytes(ws).value
    decreases ws
  {
    hide BytesOnWire;
    ghost var done: seq<byte> := [];
    var i := 0;
    assert ws[0..] == ws;
    JoinedNothing(AllBytes(ws));
    while i < |ws|
      invariant i <= |ws| && writer.Valid()
      invariant |done| <= old(writer.Room())
      invariant writer.Written() == old(writer.Written()) + done
      invariant AllBytes(ws) == Joined(Some(done), AllBytes(ws[i..]))
    {
      assert ws[i..][0] == ws[i] && ws[i..][1..] == ws[i + 1..];
      JoinedAssociative(Some(done), BytesOnWire(ws[i]), AllBytes(ws[i + 1..]));
      ok := SerializeIntoWriter(writer, ws[i]);
      if !ok {
        return;
      }
      done := done + BytesOnWire(ws[i]).value;
      i := i + 1;
    }
    ok := true;
  }

  /** A varint out of range, alone or several, announces no bytes and has none. */
  lemma {:induction false} OutOfRangeAnnouncesNothing(vs: seq<nat>)
    requires vs != [] && forall i :: 0 <= i < |vs| ==> vs[i] >= VarInt62.LIMIT
    ensures var ws := seq(|vs|, i requires 0 <= i < |vs| => VarInt(vs[i]));
            TotalLength(ws) == 0 && AllBytes(ws).None?
  {
    var ws := seq(|vs|, i requires 0 <= i < |vs| => VarInt(vs[i]));
    var tail := vs[1..];
    if tail != [] {
      OutOfRangeAnnouncesNothing(tail);
      assert ws[1..] == seq(|tail|, i requires 0 <= i < |tail| => VarInt(tail[i]));
    }
  }

  /** A buffer of the announced length, filled; fails exactly if a varint is out of range and a buffer is needed. */
  method SerializeIntoBuffer(ws: seq<Wire>) returns (r: Option<seq<byte>>)
    ensures AllBytes(ws).Some? ==> r == AllBytes(ws)
    ensures AllBytes(ws).None? ==> r == if TotalLength(ws) == 0 then Some([]) else None
  {
    TotalLengthIsExact(ws);
    var size := TotalLength(ws);
    if size == 0 {
      return Some([]);
    }
    var writer := new QuicheDataWriter(size);
    var ok := SerializeAll(writer, ws);
    if !ok {
      return None;
    }
    if writer.Room() != 0 {
      return None;
    }
    assert writer.Written() == AllBytes(ws).value;
    assert writer.buffer[..] == writer.Written();
    r := Some(writer.buffer[..]);
  }
}
