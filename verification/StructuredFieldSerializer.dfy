/** The serializer: it appends to its output, and what it appends is the text of the value. */
module StructuredFieldSerializer {
  import opened Bytes
  import opened DecimalRounding
  import opened Doubles
  import opened StructuredFields
  import opened StructuredFieldText
  import Text = StructuredFieldText
  import opened StructuredFieldRoundTrip

  lemma EscapedNothing()
    ensures Escaped([]) == []
  {
  }

  lemma EscapedStep(written: string, s: string)
    requires s != []
    ensures written + Escaped(s) == written + EscapedChar(s[0]) + Escaped(s[1..])
  {
  }

  class StructuredHeaderSerializer {
    const codec: Codec
    var output: string

    constructor (codec: Codec)
      ensures this.codec == codec && output == ""
    {
      this.codec := codec;
      output := "";
    }

    /** Whether `text` was appended; if it was not, some of it may have been. */
    twostate predicate Appended(ok: bool, text: Option<string>)
      reads this
    {
      ok == text.Some? && (ok ==> output == old(output) + text.value)
    }

    method WriteString(s: string) returns (ok: bool)
      modifies this
      ensures Appended(ok, Text.WriteBareItem(codec, String(s)))
    {
      hide Escaped, IsPrintable;
      output := output + "\"";
      ok := WriteEscaped(s);
      if !ok {
        return;
      }
      output := output + "\"";
      Regroup(old(output), "\"", Escaped(s), "\"");
      Regroup([], "\"", Escaped(s), "\"");
    }

    method WriteEscaped(s: string) returns (ok: bool)
      modifies this
      ensures ok == IsPrintable(s)
      ensures ok ==> output == old(output) + Escaped(s)
    {
      hide Escaped, EscapedChar, IsPrint;
      EscapedNothing();
      ghost var written := "";
      var i := 0;
      assert s[0..] == s && "" + Escaped(s) == Escaped(s);
      while i < |s|
        invariant i <= |s|
        invariant forall j :: 0 <= j < i ==> IsPrint(s[j])
        invariant output == old(output) + written
        invariant Escaped(s) == written + Escaped(s[i..])
      {
        if !IsPrint(s[i]) {
          return false;
        }
        EscapedStep(written, s[i..]);
        assert s[i..][1..] == s[i + 1..];
        WriteStringChar(s[i]);
        written := written + EscapedChar(s[i]);
        i := i + 1;
      }
      assert s[|s|..] == [] && written + [] == written;
      ok := true;
    }

    method WriteStringChar(c: char)
      modifies this
      ensures output == old(output) + EscapedChar(c)
    {
      if c == '\\' || c == '"' {
        output := output + "\\";
      }
      output := output + [c];
    }

    method WriteDecimal(d: Double) returns (ok: bool)
      modifies this
      ensures Appended(ok, Text.WriteBareItem(codec, Decimal(d)))
    {
      hide ThousandthsText, Nearest, HalfEven;
      if Abs(d) >= TOO_LARGE {
        return false;
      }
      if d < 0.0 {
        output := output + "-";
      }
      var v := Abs(d);
      var remainder := Remainder(v);
      if remainder == LOW {
        v := Nearest(v - LOW);
      } else if remainder == HIGH {
        v := Nearest(v + LOW);
      } else {
        v := Nearest(RoundAway(Nearest(v * 1000.0)) as real / 1000.0);
      }
      assert HalfEven(v * 1000.0) == Text.WrittenThousandths(d);
      hide Text.WrittenThousandths;
      output := output + ThousandthsText(HalfEven(v * 1000.0));
      ok := true;
    }

    method WriteBareItem(item: Item) returns (ok: bool)
      modifies this
      ensures Appended(ok, Text.WriteBareItem(codec, item))
    {
      hide DecimalText, IntegerText;
      if item.String? {
        ok := WriteString(item.s);
        return;
      }
      if item.Token? {
        if !IsToken(item.s) {
          return false;
        }
        output := output + item.s;
        return true;
      }
      if item.ByteSequence? {
        output := output + ":";
        output := output + codec.escape(item.bytes);
        output := output + ":";
        return true;
      }
      if item.Integer? {
        if item.n > MAX_INTEGER || item.n < -MAX_INTEGER {
          return false;
        }
        output := output + IntegerText(item.n);
        return true;
      }
      if item.Decimal? {
        ok := WriteDecimal(item.d);
        return;
      }
      if item.Boolean? {
        output := output + if item.value then "?1" else "?0";
        return true;
      }
      return false;
    }

    method WriteKey(key: string) returns (ok: bool)
      modifies this
      ensures Appended(ok, Text.WriteKey(key))
    {
      if !IsKey(key) {
        return false;
      }
      output := output + key;
      return true;
    }

    /** A semicolon and the parameter behind it. */
    method WriteParameter(p: (string, Item)) returns (ok: bool)
      modifies this
      ensures Appended(ok, Both(Some(";"), Text.WriteParameter(codec, p)))
    {
      hide Text.WriteBareItem, IsKey;
      output := output + ";";
      ok := WriteKey(p.0);
      if !ok {
        return false;
      }
      if !p.1.Null? {
        if p.1 == Boolean(true) {
          return true;
        }
        output := output + "=";
        ok := WriteBareItem(p.1);
      }
    }

    method WriteParameters(ps: Entries<Item>) returns (ok: bool)
      modifies this
      ensures Appended(ok, Text.WriteParameters(codec, ps))
    {
      hide Text.WriteParameter;
      var i := 0;
      ghost var written := "";
      assert ps[0..] == ps;
      BothNothing(Text.WriteParameters(codec, ps));
      while i < |ps|
        invariant i <= |ps|
        invariant output == old(output) + written
        invariant Text.WriteParameters(codec, ps)
               == Both(Some(written), Text.WriteParameters(codec, ps[i..]))
      {
        ghost var piece := Both(Some(";"), Text.WriteParameter(codec, ps[i]));
        assert ps[i..][0] == ps[i] && ps[i..][1..] == ps[i + 1..];
        BothAssociative(Some(written), piece, Text.WriteParameters(codec, ps[i + 1..]));
        ok := WriteParameter(ps[i]);
        if !ok {
          return false;
        }
        written := written + piece.value;
        i := i + 1;
      }
      ok := true;
    }

    method WriteItem(item: ParameterizedItem) returns (ok: bool)
      modifies this
      ensures Appended(ok, Text.WriteItem(codec, item))
    {
      hide Text.WriteBareItem, Text.WriteParameters;
      ok := WriteBareItem(item.item);
      if ok {
        ok := WriteParameters(item.params);
      }
    }

    method WriteInnerList(items: seq<ParameterizedItem>) returns (ok: bool)
      modifies this
      ensures Appended(ok, Text.WriteInnerList(codec, items))
    {
      hide Text.WriteItem;
      output := output + "(";
      ghost var start := output;
      var i := 0;
      var first := true;
      ghost var written := "";
      while i < |items|
        invariant i <= |items|
        invariant first == (i == 0)
        invariant output == start + written
        invariant first ==> written == ""
        invariant !first ==> WriteItems(codec, items) == Both(Some(written), WriteSpacedItems(codec, items[i..]))
      {
        ghost var piece := Text.WriteItem(codec, items[i]);
        ghost var more := WriteSpacedItems(codec, items[i + 1..]);
        if !first {
          output := output + " ";
          assert items[i..][0] == items[i] && items[i..][1..] == items[i + 1..];
          BothAssociative(Some(written), Both(Some(" "), piece), more);
          BothAssociative(Some(written), Some(" "), piece);
          written := written + " ";
        } else {
          BothNothing(piece);
        }
        ok := WriteItem(items[i]);
        if !ok {
          return false;
        }
        written := written + piece.value;
        first := false;
        i := i + 1;
      }
      assert written + "" == written;
      assert WriteItems(codec, items) == Some(written);
      output := output + ")";
      ok := true;
      assert output == old(output) + ("(" + written + ")");
    }

    method WriteParameterizedMember(m: Member) returns (ok: bool)
      requires IsMember(m)
      modifies this
      ensures Appended(ok, WriteMember(codec, m))
    {
      hide Text.WriteItem, Text.WriteInnerList, Text.WriteParameters;
      if m.isInnerList {
        ok := WriteInnerList(m.items);
      } else {
        ok := WriteItem(m.items[0]);
      }
      if ok {
        ok := WriteParameters(m.params);
      }
    }

    method WriteList(ms: Members) returns (ok: bool)
      requires IsList(ms)
      modifies this
      ensures Appended(ok, Text.WriteList(codec, ms))
    {
      hide WriteMember;
      var i := 0;
      var first := true;
      ghost var written := "";
      while i < |ms|
        invariant i <= |ms|
        invariant first == (i == 0)
        invariant output == old(output) + written
        invariant first ==> written == ""
        invariant !first ==> Text.WriteList(codec, ms) == Both(Some(written), WriteMoreMembers(codec, ms[i..]))
      {
        ghost var piece := WriteMember(codec, ms[i]);
        ghost var more := WriteMoreMembers(codec, ms[i + 1..]);
        if !first {
          output := output + ", ";
          assert ms[i..][0] == ms[i] && ms[i..][1..] == ms[i + 1..];
          BothAssociative(Some(written), Both(Some(", "), piece), more);
          BothAssociative(Some(written), Some(", "), piece);
          written := written + ", ";
        } else {
          BothNothing(piece);
        }
        ok := WriteParameterizedMember(ms[i]);
        if !ok {
          return false;
        }
        written := written + piece.value;
        first := false;
        i := i + 1;
      }
      ok := true;
    }

    method WriteEntry(e: (string, Member)) returns (ok: bool)
      requires IsEntry(e)
      modifies this
      ensures Appended(ok, Text.WriteEntry(codec, e))
    {
      hide WriteMember, Text.WriteParameters, IsKey;
      ok := WriteKey(e.0);
      if !ok {
        return false;
      }
      if IsTrue(e.1) {
        ok := WriteParameters(e.1.params);
      } else {
        output := output + "=";
        ok := WriteParameterizedMember(e.1);
      }
    }

    method WriteDictionary(d: Dictionary) returns (ok: bool)
      requires IsDictionary(d)
      modifies this
      ensures Appended(ok, Text.WriteDictionary(codec, d))
    {
      hide Text.WriteEntry, IsEntry;
      var i := 0;
      var first := true;
      ghost var written := "";
      while i < |d|
        invariant i <= |d|
        invariant first == (i == 0)
        invariant output == old(output) + written
        invariant first ==> written == ""
        invariant !first ==> Text.WriteDictionary(codec, d) == Both(Some(written), WriteMoreEntries(codec, d[i..]))
      {
        ghost var piece := Text.WriteEntry(codec, d[i]);
        ghost var more := WriteMoreEntries(codec, d[i + 1..]);
        if !first {
          output := output + ", ";
          assert d[i..][0] == d[i] && d[i..][1..] == d[i + 1..];
          BothAssociative(Some(written), Both(Some(", "), piece), more);
          BothAssociative(Some(written), Some(", "), piece);
          written := written + ", ";
        } else {
          BothNothing(piece);
        }
        ok := WriteEntry(d[i]);
        if !ok {
          return false;
        }
        written := written + piece.value;
        first := false;
        i := i + 1;
      }
      ok := true;
    }
  }

  method SerializeItem(codec: Codec, item: ParameterizedItem) returns (r: Option<string>)
    ensures r == WriteItem(codec, item)
  {
    hide WriteItem;
    var s := new StructuredHeaderSerializer(codec);
    var ok := s.WriteItem(item);
    if ok {
      BothNothing(WriteItem(codec, item));
      return Some(s.output);
    }
    return None;
  }

  method SerializeList(codec: Codec, ms: Members) returns (r: Option<string>)
    requires IsList(ms)
    ensures r == WriteList(codec, ms)
  {
    hide WriteList;
    var s := new StructuredHeaderSerializer(codec);
    var ok := s.WriteList(ms);
    if ok {
      BothNothing(WriteList(codec, ms));
      return Some(s.output);
    }
    return None;
  }

  method SerializeDictionary(codec: Codec, d: Dictionary) returns (r: Option<string>)
    requires IsDictionary(d)
    ensures r == WriteDictionary(codec, d)
  {
    hide WriteDictionary;
    var s := new StructuredHeaderSerializer(codec);
    var ok := s.WriteDictionary(d);
    if ok {
      BothNothing(WriteDictionary(codec, d));
      return Some(s.output);
    }
    return None;
  }
}
