/**
 The strict base64 decoder of HTTP basic authentication, against an encoder written from sections 3.5
 and 4 of RFC 4648. The source has no encoder; it is the reference here.
*/
module Base64 {
  import opened Common

  const MAX_CHARS: nat := 216
  const MAX_BYTES: nat := 162

  // ----- the alphabet

  /** The value of a base64 character, or -1. */
  function Digit(c: char): (v: int)
    ensures -1 <= v < 64
  {
    if 'A' <= c <= 'Z' then c as int - 'A' as int
    else if 'a' <= c <= 'z' then c as int - 'a' as int + 26
    else if '0' <= c <= '9' then c as int - '0' as int + 52
    else if c == '+' then 62
    else if c == '/' then 63
    else -1
  }

  function Letter(v: int): (c: char)
    requires 0 <= v < 64
  {
    if v < 26 then (v + 'A' as int) as char
    else if v < 52 then (v - 26 + 'a' as int) as char
    else if v < 62 then (v - 52 + '0' as int) as char
    else if v == 62 then '+'
    else '/'
  }

  lemma LetterAndDigit(v: int, c: char)
    ensures 0 <= v < 64 ==> Digit(Letter(v)) == v && Letter(v) != '='
    ensures Digit(c) >= 0 ==> Letter(Digit(c)) == c
  {
  }

  // ----- the reference encoder

  /** One to three bytes as four characters. */
  function Quad(b: Bytes): (s: string)
    requires 1 <= |b| <= 3
    ensures |s| == 4
  {
    if |b| == 1 then [Letter(b[0] / 4), Letter(b[0] % 4 * 16), '=', '=']
    else if |b| == 2 then [Letter(b[0] / 4), Letter(b[0] % 4 * 16 + b[1] / 16), Letter(b[1] % 16 * 4), '=']
    else [Letter(b[0] / 4), Letter(b[0] % 4 * 16 + b[1] / 16), Letter(b[1] % 16 * 4 + b[2] / 64), Letter(b[2] % 64)]
  }

  function Encode(b: Bytes): string {
    if b == [] then "" else if |b| <= 3 then Quad(b) else Quad(b[..3]) + Encode(b[3..])
  }

  /** Four characters for every three bytes begun. */
  lemma {:induction false} EncodedLength(b: Bytes) returns (groups: nat)
    ensures |Encode(b)| == 4 * groups && 3 * groups - 3 < |b| <= 3 * groups
  {
    if b == [] {
      groups := 0;
    } else if |b| <= 3 {
      groups := 1;
    } else {
      groups := EncodedLength(b[3..]);
      groups := groups + 1;
    }
  }

  /** Table 1 of RFC 4648. */
  lemma Alphabet()
    ensures [Letter(0), Letter(1), Letter(2), Letter(3), Letter(4), Letter(5), Letter(6), Letter(7), Letter(8),
             Letter(9), Letter(10), Letter(11), Letter(12), Letter(13), Letter(14), Letter(15), Letter(16),
             Letter(17), Letter(18), Letter(19), Letter(20), Letter(21), Letter(22), Letter(23), Letter(24),
             Letter(25)] == "ABCDEFGHIJKLMNOPQRSTUVWXYZ"
    ensures [Letter(26), Letter(27), Letter(28), Letter(29), Letter(30), Letter(31), Letter(32), Letter(33),
             Letter(34), Letter(35), Letter(36), Letter(37), Letter(38), Letter(39), Letter(40), Letter(41),
             Letter(42), Letter(43), Letter(44), Letter(45), Letter(46), Letter(47), Letter(48), Letter(49),
             Letter(50), Letter(51)] == "abcdefghijklmnopqrstuvwxyz"
    ensures [Letter(52), Letter(53), Letter(54), Letter(55), Letter(56), Letter(57), Letter(58), Letter(59),
             Letter(60), Letter(61), Letter(62), Letter(63)] == "0123456789+/"
  {}

  /** Three bytes as one number of 24 bits, six to a character; missing bytes count as zero. */
  lemma QuadBits(a: Byte, b: Byte, c: Byte)
    ensures var n := a * 0x10000 + b * 0x100 + c;
            Quad([a, b, c]) == [Letter(n / 0x40000), Letter(n / 0x1000 % 64), Letter(n / 0x40 % 64), Letter(n % 64)]
  {
    FirstSextets(a, b, c);
    LastSextets(a, b, c);
  }

  lemma ShortQuads(a: Byte, b: Byte)
    ensures Quad([a, b]) == Quad([a, b, 0])[..3] + "=" && Quad([a]) == Quad([a, 0, 0])[..2] + "=="
  {}

  lemma FirstSextets(a: Byte, b: Byte, c: Byte)
    ensures var n := a * 0x10000 + b * 0x100 + c; n / 0x40000 == a / 4 && n / 0x1000 % 64 == a % 4 * 16 + b / 16
  {
    TopSextet(a, b * 0x100 + c);
    NextSextet(a, b, c);
  }

  lemma TopSextet(a: Byte, r: nat)
    requires r < 0x10000
    ensures (a * 0x10000 + r) / 0x40000 == a / 4
  {
    assert a * 0x10000 + r == 0x40000 * (a / 4) + (0x10000 * (a % 4) + r);
  }

  lemma NextSextet(a: Byte, b: Byte, c: Byte)
    ensures (a * 0x10000 + b * 0x100 + c) / 0x1000 % 64 == a % 4 * 16 + b / 16
  {
    var y := a * 16 + b / 16;
    assert a * 0x10000 + b * 0x100 + c == 0x1000 * y + (0x100 * (b % 16) + c);
    SextetOf(a, b / 16);
  }

  lemma SextetOf(a: Byte, h: nat)
    requires h < 16
    ensures (a * 16 + h) % 64 == a % 4 * 16 + h
  {
    assert a * 16 + h == 64 * (a / 4) + (a % 4 * 16 + h);
  }

  lemma LastSextets(a: Byte, b: Byte, c: Byte)
    ensures var n := a * 0x10000 + b * 0x100 + c; n / 0x40 % 64 == b % 16 * 4 + c / 64 && n % 64 == c % 64
  {
    var x := a * 1024 + b * 4;
    var n := 64 * x + c;
    assert n == a * 0x10000 + b * 0x100 + c;
    assert n / 64 == x + c / 64 && n % 64 == c % 64;
    Sextet(a, b, c / 64);
  }

  lemma Sextet(a: Byte, b: Byte, d: nat)
    requires d < 4
    ensures (a * 1024 + b * 4 + d) % 64 == b % 16 * 4 + d
  {
    var q := a * 16 + b / 16;
    assert a * 1024 + b * 4 + d == 64 * q + (b % 16 * 4 + d);
  }

  // ----- the source's decoder, group by group

  /** The bytes of one group of four characters; last says that no group follows. */
  function Group(s: string, last: bool): Option<Bytes>
    requires |s| == 4
  {
    var a, b, c, d := Digit(s[0]), Digit(s[1]), Digit(s[2]), Digit(s[3]);
    var p2, p3 := s[2] == '=', s[3] == '=';
    if a < 0 || b < 0 || (!p2 && c < 0) || (!p3 && d < 0) || (p2 && !p3) || ((p2 || p3) && !last) then None
    else if (p2 && b % 16 != 0) || (!p2 && p3 && c % 4 != 0) then None
    else if p2 then Some([a * 4 + b / 16])
    else if p3 then Some([a * 4 + b / 16, b % 16 * 16 + c / 4])
    else Some([a * 4 + b / 16, b % 16 * 16 + c / 4, c % 4 * 64 + d])
  }

  function Groups(s: string): Option<Bytes> {
    if s == "" then Some([])
    else if |s| < 4 then None
    else
      match Group(s[..4], |s| == 4)
      case None => None
      case Some(head) =>
        match Groups(s[4..])
        case None => None
        case Some(tail) => Some(head + tail)
  }

  /** What the source accepts: neither empty nor too long, whole groups, each canonical. */
  function Decoded(s: string): Option<Bytes> {
    if s == "" || |s| % 4 != 0 || |s| > MAX_CHARS then None else Groups(s)
  }

  // ----- the two are inverse

  lemma FirstByte(x: int, y: int)
    requires 0 <= x < 256 && 0 <= y < 256
    ensures x / 4 * 4 + (x % 4 * 16 + y / 16) / 16 == x && x / 4 * 4 + (x % 4 * 16) / 16 == x && x % 4 * 16 % 16 == 0
  {
  }

  lemma SecondByte(x: int, y: int, z: int)
    requires 0 <= x < 256 && 0 <= y < 256 && 0 <= z < 256
    ensures (x % 4 * 16 + y / 16) % 16 * 16 + (y % 16 * 4 + z / 64) / 4 == y
    ensures (x % 4 * 16 + y / 16) % 16 * 16 + (y % 16 * 4) / 4 == y && y % 16 * 4 % 4 == 0
  {
    assert (x % 4 * 16 + y / 16) % 16 == y / 16;
  }

  lemma ThirdByte(y: int, z: int)
    requires 0 <= y < 256 && 0 <= z < 256
    ensures (y % 16 * 4 + z / 64) % 4 * 64 + z % 64 == z
  {
    assert (y % 16 * 4 + z / 64) % 4 == z / 64;
  }

  lemma BitsOfDigits(a: int, b: int, c: int, d: int)
    requires 0 <= a < 64 && 0 <= b < 64 && 0 <= c < 64 && 0 <= d < 64
    ensures (a * 4 + b / 16) / 4 == a && (a * 4 + b / 16) % 4 * 16 + (b % 16 * 16 + c / 4) / 16 == b
    ensures b % 16 == 0 ==> (a * 4 + b / 16) % 4 * 16 == b
    ensures (b % 16 * 16 + c / 4) % 16 * 4 + (c % 4 * 64 + d) / 64 == c && (c % 4 * 64 + d) % 64 == d
    ensures c % 4 == 0 ==> (b % 16 * 16 + c / 4) % 16 * 4 == c
  {
  }

  lemma GroupOfOne(x: Byte)
    ensures Group(Quad([x]), true) == Some([x])
  {
    LetterAndDigit(x / 4, '=');
    LetterAndDigit(x % 4 * 16, '=');
    FirstByte(x, 0);
  }

  lemma GroupOfTwo(x: Byte, y: Byte)
    ensures Group(Quad([x, y]), true) == Some([x, y])
  {
    LetterAndDigit(x / 4, '=');
    LetterAndDigit(x % 4 * 16 + y / 16, '=');
    LetterAndDigit(y % 16 * 4, '=');
    FirstByte(x, y);
    SecondByte(x, y, 0);
  }

  lemma GroupOfLetters(a: int, b: int, c: int, d: int, last: bool)
    requires 0 <= a < 64 && 0 <= b < 64 && 0 <= c < 64 && 0 <= d < 64
    ensures Group([Letter(a), Letter(b), Letter(c), Letter(d)], last)
            == Some([a * 4 + b / 16, b % 16 * 16 + c / 4, c % 4 * 64 + d])
  {
    LetterAndDigit(a, '=');
    LetterAndDigit(b, '=');
    LetterAndDigit(c, '=');
    LetterAndDigit(d, '=');
  }

  /** The four digits of three bytes, and the bytes they stand for. */
  lemma Digits(x: Byte, y: Byte, z: Byte) returns (a: int, b: int, c: int, d: int)
    ensures 0 <= a < 64 && 0 <= b < 64 && 0 <= c < 64 && 0 <= d < 64
    ensures a * 4 + b / 16 == x && b % 16 * 16 + c / 4 == y && c % 4 * 64 + d == z
    ensures Quad([x, y, z]) == [Letter(a), Letter(b), Letter(c), Letter(d)]
  {
    a, b, c, d := x / 4, x % 4 * 16 + y / 16, y % 16 * 4 + z / 64, z % 64;
    FirstByte(x, y);
    SecondByte(x, y, z);
    ThirdByte(y, z);
  }

  lemma GroupOfThree(x: Byte, y: Byte, z: Byte, last: bool)
    ensures Group(Quad([x, y, z]), last) == Some([x, y, z])
  {
    var a, b, c, d := Digits(x, y, z);
    GroupOfLetters(a, b, c, d, last);
  }

  lemma GroupOfQuad(b: Bytes, last: bool)
    requires 1 <= |b| <= 3 && (last || |b| == 3)
    ensures Group(Quad(b), last) == Some(b)
  {
    if |b| == 1 {
      assert b == [b[0]];
      GroupOfOne(b[0]);
    } else if |b| == 2 {
      assert b == [b[0], b[1]];
      GroupOfTwo(b[0], b[1]);
    } else {
      assert b == [b[0], b[1], b[2]];
      GroupOfThree(b[0], b[1], b[2], last);
    }
  }

  lemma QuadOfGroup(s: string, last: bool)
    requires |s| == 4 && Group(s, last).Some?
    ensures var b := Group(s, last).value;
            1 <= |b| <= 3 && (last || |b| == 3) && Quad(b) == s
  {
    var a, b, c, d := Digit(s[0]), Digit(s[1]), Digit(s[2]), Digit(s[3]);
    LetterAndDigit(0, s[0]);
    LetterAndDigit(0, s[1]);
    LetterAndDigit(0, s[2]);
    LetterAndDigit(0, s[3]);
    BitsOfDigits(a, b, if c < 0 then 0 else c, if d < 0 then 0 else d);
  }

  /** Decoding a canonical encoding recovers the bytes. */
  lemma {:induction false} DecodeOfEncode(b: Bytes)
    ensures Groups(Encode(b)) == Some(b)
  {
    if 1 <= |b| <= 3 {
      GroupOfQuad(b, true);
      assert Encode(b)[..4] == Quad(b) && Encode(b)[4..] == "";
      assert b + [] == b;
    } else if |b| > 3 {
      var groups := EncodedLength(b[3..]);
      GroupOfQuad(b[..3], false);
      DecodeOfEncode(b[3..]);
      assert Encode(b)[..4] == Quad(b[..3]) && Encode(b)[4..] == Encode(b[3..]);
      assert b == b[..3] + b[3..];
    }
  }

  /** Encoding what an accepted string decodes to gives that string back. */
  lemma {:induction false} EncodeOfDecode(s: string)
    requires Groups(s).Some?
    ensures Encode(Groups(s).value) == s
  {
    if s != "" {
      var head, tail := Group(s[..4], |s| == 4).value, Groups(s[4..]).value;
      QuadOfGroup(s[..4], |s| == 4);
      EncodeOfDecode(s[4..]);
      if |s| == 4 {
        assert head + tail == head;
      } else {
        assert tail != [];
        assert (head + tail)[..3] == head && (head + tail)[3..] == tail;
      }
    }
  }

  lemma Sizes(b: Bytes)
    ensures |Encode(b)| % 4 == 0 && (Encode(b) == "" <==> b == []) && (|Encode(b)| <= MAX_CHARS <==> |b| <= MAX_BYTES)
  {
    var groups := EncodedLength(b);
  }

  /** The decoder is a bijection between the strings it accepts and the byte strings of 1 to 162 bytes. */
  lemma Bijection(s: string, b: Bytes)
    ensures Decoded(s) == Some(b) <==> s == Encode(b) && 1 <= |b| <= 162
  {
    if s == Encode(b) {
      Sizes(b);
      DecodeOfEncode(b);
    } else if Groups(s).Some? {
      EncodeOfDecode(s);
    }
  }

  // ----- the loop

  /** One turn of the loop: checks a group and appends its bytes. */
  method Append(g: string, last: bool, out: array<Byte>, used: nat) returns (ok: bool, next: nat)
    requires |g| == 4 && used + 3 <= out.Length
    modifies out
    ensures ok <==> Group(g, last).Some?
    ensures ok ==> used <= next <= used + 3 && out[..next] == old(out[..used]) + Group(g, last).value
  {
    next := used;
    var a, b, c, d := Digit(g[0]), Digit(g[1]), Digit(g[2]), Digit(g[3]);
    var p2, p3 := g[2] == '=', g[3] == '=';
    if a < 0 || b < 0 || (!p2 && c < 0) || (!p3 && d < 0) || (p2 && !p3) || ((p2 || p3) && !last) {
      return false, 0;
    }
    if (p2 && b % 16 != 0) || (!p2 && p3 && c % 4 != 0) {
      return false, 0;
    }
    out[next] := a * 4 + b / 16;
    next := next + 1;
    if !p2 {
      out[next] := b % 16 * 16 + c / 4;
      next := next + 1;
    }
    if !p3 {
      out[next] := c % 4 * 64 + d;
      next := next + 1;
    }
    ok := true;
  }

  /** The decoder fills a caller's buffer of 162 bytes and never runs past it. */
  method Decode(s: string, out: array<Byte>) returns (ok: bool, used: nat)
    requires out.Length == MAX_BYTES
    modifies out
    ensures ok <==> Decoded(s).Some?
    ensures ok ==> used <= MAX_BYTES && Decoded(s) == Some(out[..used])
  {
    used := 0;
    if s == "" || |s| % 4 != 0 || |s| > MAX_CHARS {
      return false, 0;
    }
    var i := 0;
    ghost var n, k := |s| / 4, 0;
    assert |s| == 4 * n && n <= 54;
    assert s[i..] == s;
    PrependNothing(Groups(s));
    while i < |s|
      invariant i == 4 * k && k <= n && used <= 3 * k
      invariant Groups(s) == Prepend(out[..used], Groups(s[i..]))
      decreases |s| - i
    {
      ghost var before, tail := out[..used], s[i..];
      GroupsStep(tail);
      assert s[i..i + 4] == tail[..4] && s[i + 4..] == tail[4..];
      ok, used := Append(s[i..i + 4], i + 4 == |s|, out, used);
      if !ok {
        return false, 0;
      }
      PrependTwice(before, Group(tail[..4], |tail| == 4).value, Groups(tail[4..]));
      i, k := i + 4, k + 1;
    }
    assert s[i..] == "" && out[..used] + [] == out[..used];
    ok := true;
  }

  function Prepend(head: Bytes, tail: Option<Bytes>): Option<Bytes> {
    if tail.None? then None else Some(head + tail.value)
  }

  lemma GroupsStep(s: string)
    requires |s| >= 4
    ensures match Group(s[..4], |s| == 4)
            case None => Groups(s) == None
            case Some(head) => Groups(s) == Prepend(head, Groups(s[4..]))
  {
  }

  lemma PrependNothing(tail: Option<Bytes>)
    ensures Prepend([], tail) == tail
  {
    if tail.Some? { assert [] + tail.value == tail.value; }
  }

  lemma PrependTwice(a: Bytes, b: Bytes, tail: Option<Bytes>)
    ensures Prepend(a + b, tail) == Prepend(a, Prepend(b, tail))
  {
    if tail.Some? { assert a + b + tail.value == a + (b + tail.value); }
  }
}
