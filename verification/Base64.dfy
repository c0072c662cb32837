/** Base64 with the standard alphabet and padding (RFC 4648, section 4). */
module Base64 {
  import opened Bytes
  import opened StructuredFields
  import opened StructuredFieldItems

  type sextet = n: int | 0 <= n < 64

  function Symbol(n: sextet): (c: char)
    ensures c != ':' && c != '='
  {
    if n < 26 then ('A' as int + n) as char
    else if n < 52 then ('a' as int + n - 26) as char
    else if n < 62 then ('0' as int + n - 52) as char
    else if n == 62 then '+' else '/'
  }

  function Value(c: char): (r: Option<sextet>) {
    if 'A' <= c <= 'Z' then Some(c as int - 'A' as int)
    else if 'a' <= c <= 'z' then Some(c as int - 'a' as int + 26)
    else if '0' <= c <= '9' then Some(c as int - '0' as int + 52)
    else if c == '+' then Some(62) else if c == '/' then Some(63) else None
  }

  lemma ValueOfSymbol(n: sextet)
    ensures Value(Symbol(n)) == Some(n)
  {
  }

  // The four numbers that three bytes make, and the three bytes that they came from.

  function P(x: byte): sextet { x / 4 }
  function Q(x: byte, y: byte): sextet { x % 4 * 16 + y / 16 }
  function R(y: byte, z: byte): sextet { y % 16 * 4 + z / 64 }
  function S(z: byte): sextet { z % 64 }

  function First(p: sextet, q: sextet): byte { p * 4 + q / 16 }
  function Second(q: sextet, r: sextet): byte { q % 16 * 16 + r / 4 }
  function Third(r: sextet, s: sextet): byte { r % 4 * 64 + s }

  lemma BytesComeBack(x: byte, y: byte, z: byte)
    ensures First(P(x), Q(x, y)) == x && Second(Q(x, y), R(y, z)) == y && Third(R(y, z), S(z)) == z
  {
    QuotientAndRemainder(x % 4, 16, y / 16);
    QuotientAndRemainder(y % 16, 4, z / 64);
  }

  lemma QuotientAndRemainder(a: nat, n: nat, b: nat)
    requires b < n
    ensures (a * n + b) / n == a && (a * n + b) % n == b
  {
    QuotientUnique(a * n + b, n, a, b);
  }

  function Group(x: byte, y: byte, z: byte): (s: string)
    ensures |s| == 4 && ':' !in s
  {
    [Symbol(P(x)), Symbol(Q(x, y)), Symbol(R(y, z)), Symbol(S(z))]
  }

  function GroupOfTwo(x: byte, y: byte): (s: string)
    ensures |s| == 4 && ':' !in s
  {
    [Symbol(P(x)), Symbol(Q(x, y)), Symbol(R(y, 0)), '=']
  }

  function GroupOfOne(x: byte): (s: string)
    ensures |s| == 4 && ':' !in s
  {
    [Symbol(P(x)), Symbol(Q(x, 0)), '=', '=']
  }

  function Escape(b: seq<byte>): string {
    if b == [] then []
    else if |b| == 1 then GroupOfOne(b[0])
    else if |b| == 2 then GroupOfTwo(b[0], b[1])
    else Group(b[0], b[1], b[2]) + Escape(b[3..])
  }

  /** The bytes of one group of four. */
  function Ungroup(s: string): (r: Option<seq<byte>>)
    requires |s| == 4
  {
    var p, q, r, t := Value(s[0]), Value(s[1]), Value(s[2]), Value(s[3]);
    if p.None? || q.None? then None
    else if s[2] == '=' && s[3] == '=' then Some([First(p.value, q.value)])
    else if r.None? then None
    else if s[3] == '=' then Some([First(p.value, q.value), Second(q.value, r.value)])
    else if t.None? then None
    else Some([First(p.value, q.value), Second(q.value, r.value), Third(r.value, t.value)])
  }

  /** Only the last group may have padding. */
  function Unescape(s: string): (r: Option<seq<byte>>) {
    if s == [] then Some([])
    else if |s| < 4 then None
    else
      match Ungroup(s[..4])
      case None => None
      case Some(front) =>
        if |s| > 4 && |front| < 3 then None
        else
          match Unescape(s[4..])
          case None => None
          case Some(back) => Some(front + back)
  }

  lemma GroupComesBack(x: byte, y: byte, z: byte)
    ensures Ungroup(Group(x, y, z)) == Some([x, y, z])
  {
    hide Symbol, Value, P, Q, R, S, First, Second, Third;
    ValueOfSymbol(P(x));
    ValueOfSymbol(Q(x, y));
    ValueOfSymbol(R(y, z));
    ValueOfSymbol(S(z));
    BytesComeBack(x, y, z);
  }

  lemma LastGroupComesBack(x: byte, y: byte)
    ensures Ungroup(GroupOfTwo(x, y)) == Some([x, y])
    ensures Ungroup(GroupOfOne(x)) == Some([x])
  {
    hide Symbol, Value, P, Q, R, S, First, Second, Third;
    ValueOfSymbol(P(x));
    ValueOfSymbol(Q(x, y));
    ValueOfSymbol(Q(x, 0));
    ValueOfSymbol(R(y, 0));
    BytesComeBack(x, y, 0);
    BytesComeBack(x, 0, 0);
  }

  lemma {:induction false} EscapeShape(b: seq<byte>)
    ensures |Escape(b)| % 4 == 0 && ':' !in Escape(b)
  {
    hide Group, GroupOfOne, GroupOfTwo;
    if |b| > 2 {
      var first, others := Group(b[0], b[1], b[2]), Escape(b[3..]);
      EscapeShape(b[3..]);
      assert Escape(b) == first + others;
      hide Escape;
      assert |first + others| == 4 + |others|;
    }
  }

  lemma {:induction false} EscapeComesBack(b: seq<byte>)
    ensures Unescape(Escape(b)) == Some(b)
  {
    hide Ungroup, Group, GroupOfOne, GroupOfTwo;
    var s := Escape(b);
    if 1 <= |b| <= 2 {
      LastGroupComesBack(b[0], b[|b| - 1]);
      assert s[..4] == s && s[4..] == [];
      assert b == if |b| == 1 then [b[0]] else [b[0], b[1]];
      assert b + [] == b;
    } else if |b| > 2 {
      EscapeComesBack(b[3..]);
      GroupComesBack(b[0], b[1], b[2]);
      assert s[..4] == Group(b[0], b[1], b[2]) && s[4..] == Escape(b[3..]);
      assert b == [b[0], b[1], b[2]] + b[3..];
    }
  }

  /** Standard base64 is a codec that byte sequences can rely on. */
  lemma StandardIsFaithful()
    ensures Faithful(Codec(Escape, Unescape))
  {
    forall b: seq<byte> ensures |Escape(b)| % 4 == 0 && ':' !in Escape(b) && Unescape(Escape(b)) == Some(b) {
      EscapeShape(b);
      EscapeComesBack(b);
    }
  }
}
