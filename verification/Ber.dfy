/**
 Basic encoding rules as the SNMP engine reads and prints them (ITU-T X.690): tag, length and
 value, two's complement integers, and object identifiers. Values only; the buffers are in
 module SnmpWriter and module SnmpAgent.
*/
module Ber {
  import opened Common

  // ----- length and tag

  function Unsigned(p: Bytes): nat {
    if p == [] then 0 else Unsigned(p[..|p|-1]) * 256 + p[|p|-1]
  }

  /** Length octets as end() leaves them, for contents below 65536 bytes. */
  function LengthOctets(n: nat): Bytes
    requires n < 0x1_0000
  {
    if n < 128 then [n] else if n < 256 then [0x81, n] else [0x82, n / 256, n % 256]
  }

  /** The length at the front of r and what follows it. */
  function ReadLength(r: Bytes): (o: Option<(nat, Bytes)>)
    requires r != []
    ensures o.Some? ==> |o.value.1| < |r|
  {
    if r[0] < 128 then Some((r[0], r[1..]))
    else
      var k: nat := r[0] - 128;
      if k == 0 || k > 4 || k > |r| - 1 then None
      else Some((Unsigned(r[1..1+k]), r[1+k..]))
  }

  datatype Element = Element(tag: Byte, content: Bytes, rest: Bytes)

  function ReadElement(r: Bytes): (o: Option<Element>)
    ensures o.Some? ==> |o.value.content| + |o.value.rest| + 2 <= |r|
  {
    if |r| < 2 then None
    else match ReadLength(r[1..])
      case None => None
      case Some((n, s)) => if n > |s| then None else Some(Element(r[0], s[..n], s[n..]))
  }

  function Expect(r: Bytes, tag: Byte): (o: Option<(Bytes, Bytes)>)
    ensures o.Some? ==> |o.value.0| + |o.value.1| + 2 <= |r|
  {
    match ReadElement(r)
    case None => None
    case Some(e) => if e.tag == tag then Some((e.content, e.rest)) else None
  }

  function Print(tag: Byte, content: Bytes): Bytes
    requires |content| < 0x1_0000
  {
    [tag] + LengthOctets(|content|) + content
  }

  lemma UnsignedOf(a: Byte, b: Byte)
    ensures Unsigned([a]) == a && Unsigned([a, b]) == a * 256 + b
  {
    assert [a, b][..1] == [a] && [a][..0] == [];
  }

  lemma ReadLengthOf(n: nat, rest: Bytes)
    requires n < 0x1_0000
    ensures ReadLength(LengthOctets(n) + rest) == Some((n, rest))
  {
    var o := LengthOctets(n);
    var r := o + rest;
    assert r[|o|..] == rest;
    if n >= 256 {
      assert r[1..3] == [n / 256, n % 256];
      UnsignedOf(n / 256, n % 256);
    } else if n >= 128 {
      assert r[1..2] == [n];
      UnsignedOf(n, 0);
    }
  }

  /** Reading what was printed gives back the tag, the content and whatever followed. */
  lemma ReadElementOfPrint(tag: Byte, content: Bytes, rest: Bytes)
    requires |content| < 0x1_0000
    ensures ReadElement(Print(tag, content) + rest) == Some(Element(tag, content, rest))
  {
    var r := Print(tag, content) + rest;
    assert r[1..] == LengthOctets(|content|) + (content + rest);
    ReadLengthOf(|content|, content + rest);
  }

  lemma {:induction false} UnsignedBound(p: Bytes)
    requires |p| <= 2
    ensures Unsigned(p) < if |p| == 0 then 1 else if |p| == 1 then 256 else 0x1_0000
  {
    if |p| == 1 { assert p == [p[0]]; UnsignedOf(p[0], 0); }
    if |p| == 2 { assert p == [p[0], p[1]]; UnsignedOf(p[0], p[1]); }
  }

  /** No accepted length encoding of n is shorter than the printed one. */
  lemma LengthOctetsMinimal(n: nat, p: Bytes, rest: Bytes)
    requires n < 0x1_0000 && p != []
    requires ReadLength(p + rest) == Some((n, rest))
    ensures |LengthOctets(n)| <= |p|
  {
    var r := p + rest;
    var k: int := r[0];
    k := k - 128;
    if k > 0 {
      assert |r[1+k..]| == |rest|;
      assert |p| == 1 + k;
      if k <= 2 { UnsignedBound(r[1..1+k]); }
    }
  }

  // ----- integers

  /** The two's complement value of some octets. */
  function Signed(p: Bytes): int
    requires p != []
  {
    if |p| == 1 then (if p[0] < 128 then p[0] else p[0] - 256)
    else Signed(p[..|p|-1]) * 256 + p[|p|-1]
  }

  /** The shortest two's complement octets of v. */
  function IntegerOctets(v: int): (p: Bytes)
    ensures p != []
    decreases if v < 0 then -v else v
  {
    if -128 <= v < 128 then [v % 256] else IntegerOctets(v / 256) + [v % 256]
  }

  predicate Redundant(p: Bytes) {
    |p| > 1 && ((p[0] == 0 && p[1] < 128) || (p[0] == 255 && p[1] >= 128))
  }

  lemma {:induction false} SignedOfIntegerOctets(v: int)
    ensures Signed(IntegerOctets(v)) == v
    decreases if v < 0 then -v else v
  {
    if !(-128 <= v < 128) {
      SignedOfIntegerOctets(v / 256);
      var p := IntegerOctets(v);
      assert p[..|p|-1] == IntegerOctets(v / 256);
    }
  }

  /** v is a two's complement number of n octets. */
  function Half(n: nat): (h: nat)
    requires n > 0
    ensures h >= 128
  {
    if n == 1 then 128 else 256 * Half(n - 1)
  }

  predicate Fits(v: int, n: nat) {
    n > 0 && 0 - Half(n) <= v < Half(n)
  }

  lemma {:induction false} SignedFits(p: Bytes)
    requires p != []
    ensures Fits(Signed(p), |p|)
  {
    if |p| > 1 { SignedFits(p[..|p|-1]); }
  }

  /** The octets printed for v are as few as its magnitude allows. */
  lemma {:induction false} IntegerOctetsSize(v: int, n: nat)
    requires n > 0
    ensures |IntegerOctets(v)| <= n <==> Fits(v, n)
    decreases n
  {
    if n > 1 && !(-128 <= v < 128) { IntegerOctetsSize(v / 256, n - 1); }
  }

  /** A leading octet that only repeats the sign can be dropped, and no other can. */
  lemma {:induction false} RedundantIff(p: Bytes)
    requires |p| > 1
    ensures Redundant(p) <==> Fits(Signed(p), |p| - 1)
    ensures Redundant(p) ==> Signed(p[1..]) == Signed(p)
  {
    var n := |p| - 1;
    if n == 1 {
      assert p[..1] == [p[0]] && p[1..] == [p[1]];
    } else {
      RedundantIff(p[..n]);
      assert p[1..][..n-1] == p[..n][1..];
    }
  }

  function Strip(p: Bytes): (s: Bytes)
    ensures |s| <= |p| && (p != [] ==> s != [])
  {
    if Redundant(p) then Strip(p[1..]) else p
  }

  lemma {:induction false} StripKeepsValue(p: Bytes)
    requires p != []
    ensures Signed(Strip(p)) == Signed(p) && !Redundant(Strip(p))
  {
    if Redundant(p) {
      RedundantIff(p);
      StripKeepsValue(p[1..]);
    }
  }

  /** Octets without a redundant one in front are the printed octets of their value. */
  lemma {:induction false} NotRedundantIsPrinted(p: Bytes)
    requires p != [] && !Redundant(p)
    ensures p == IntegerOctets(Signed(p))
  {
    if |p| > 1 {
      var n := |p| - 1;
      var v, w := Signed(p), Signed(p[..n]);
      assert !(-128 <= v < 128) by {
        RedundantIff(p);
        WiderHalf(n);
      }
      NotRedundantIsPrinted(p[..n]);
      LowOctet(w, p[n]);
      assert IntegerOctets(v) == IntegerOctets(w) + [p[n]];
      assert p == p[..n] + [p[n]];
    }
  }

  lemma LowOctet(w: int, b: Byte)
    ensures (w * 256 + b) / 256 == w && (w * 256 + b) % 256 == b
  {
  }

  lemma {:induction false} WiderHalf(n: nat)
    requires n > 0
    ensures Half(1) <= Half(n)
  {
    if n > 1 { WiderHalf(n - 1); }
  }

  /** integer() on the content octets: redundant ones are skipped, then at most four may remain. */
  function Int32Of(p: Bytes): Option<int> {
    if p == [] || |Strip(p)| > 4 then None else Some(Signed(Strip(p)))
  }

  const MIN_INT32: int := -0x8000_0000
  const MAX_INT32: int := 0x7fff_ffff

  /** Any non-empty octets, minimal or not, are accepted exactly when their value is a 32-bit
      integer, and then that value is returned. */
  lemma Int32Iff(p: Bytes)
    ensures Int32Of(p).Some? <==> p != [] && -0x8000_0000 <= Signed(p) <= 0x7fff_ffff
    ensures Int32Of(p).Some? ==> Int32Of(p).value == Signed(p)
  {
    if p != [] {
      StripKeepsValue(p);
      NotRedundantIsPrinted(Strip(p));
      IntegerOctetsSize(Signed(p), 4);
      assert Half(2) == 0x8000 && Half(3) == 0x80_0000 && Half(4) == 0x8000_0000;
    }
  }

  function ReadInteger(r: Bytes): Option<(int, Bytes)> {
    match Expect(r, 2)
    case None => None
    case Some((p, rest)) =>
      match Int32Of(p)
      case None => None
      case Some(v) => Some((v, rest))
  }

  function PrintNumber(tag: Byte, v: int): Bytes
    requires |IntegerOctets(v)| < 128
  {
    [tag, |IntegerOctets(v)|] + IntegerOctets(v)
  }

  lemma Int32Short(v: int)
    requires MIN_INT32 <= v <= MAX_INT32
    ensures |IntegerOctets(v)| <= 4
  {
    IntegerOctetsSize(v, 4);
    assert Half(2) == 0x8000 && Half(3) == 0x80_0000 && Half(4) == 0x8000_0000;
  }

  /** A printed 32-bit integer is read back as itself. */
  lemma ReadIntegerOfPrint(v: int, rest: Bytes)
    requires MIN_INT32 <= v <= MAX_INT32
    ensures |IntegerOctets(v)| <= 4 && ReadInteger(PrintNumber(2, v) + rest) == Some((v, rest))
  {
    Int32Short(v);
    var p := IntegerOctets(v);
    assert PrintNumber(2, v) == Print(2, p);
    ReadElementOfPrint(2, p, rest);
    SignedOfIntegerOctets(v);
    Int32Iff(p);
  }

  // ----- object identifiers

  const OID_MAX: nat := 24
  const MAX_ARC: nat := 0xffff_ffff
  const MAX_SUBID: nat := 0x7_ffff_ffff   // five groups of seven bits

  type Oid = seq<nat>

  predicate Legal(o: Oid) {
    && 2 <= |o| <= OID_MAX && o[0] <= 2 && (o[0] < 2 ==> o[1] < 40)
    && forall i :: 0 <= i < |o| ==> o[i] <= MAX_ARC
  }

  /** The leading groups of a subidentifier, all with the continuation bit. */
  function Groups(x: nat): Bytes {
    if x == 0 then [] else Groups(x / 128) + [128 + x % 128]
  }

  function SubId(x: nat): (p: Bytes)
    ensures p != []
  {
    Groups(x / 128) + [x % 128]
  }

  function Arcs(s: seq<nat>): Bytes {
    if s == [] then [] else SubId(s[0]) + Arcs(s[1..])
  }

  function OidContent(o: Oid): Bytes
    requires |o| >= 2
  {
    SubId(o[0] * 40 + o[1]) + Arcs(o[2..])
  }

  /** The inner loop of oid_read, entered with the groups so far and their count. */
  function ReadSubId(p: Bytes, x: nat, count: nat): (r: Option<(nat, Bytes)>)
    ensures r.Some? ==> |r.value.1| < |p|
    decreases |p|
  {
    if p == [] || count + 1 > 5 then None
    else if count == 0 && p[0] == 128 then None
    else
      var y := x * 128 + p[0] % 128;
      if p[0] >= 128 then ReadSubId(p[1..], y, count + 1) else Some((y, p[1..]))
  }

  /** The outer loop of oid_read, entered with the arcs so far. */
  function ReadArcs(p: Bytes, o: Oid): Option<Oid>
    decreases |p|
  {
    if p == [] then Some(o)
    else match ReadSubId(p, 0, 0)
      case None => None
      case Some((x, rest)) =>
        if o == [] then
          var first := if x < 40 then 0 else if x < 80 then 1 else 2;
          if x - first * 40 > MAX_ARC then None else ReadArcs(rest, [first, x - first * 40])
        else if x > MAX_ARC || |o| == OID_MAX then None
        else ReadArcs(rest, o + [x])
  }

  function ReadOid(p: Bytes): Option<Oid> {
    if p == [] then None else ReadArcs(p, [])
  }

  lemma {:induction false} GroupsSize(x: nat)
    ensures |Groups(x)| <= 1 <==> x < 0x80
    ensures |Groups(x)| <= 2 <==> x < 0x4000
    ensures |Groups(x)| <= 3 <==> x < 0x20_0000
    ensures |Groups(x)| <= 4 <==> x < 0x1000_0000
    ensures |Groups(x)| == 0 <==> x == 0
  {
    if x > 0 { GroupsSize(x / 128); }
  }

  lemma {:induction false} ReadGroups(x: nat, q: Bytes)
    requires |Groups(x)| <= 4
    ensures ReadSubId(Groups(x) + q, 0, 0) == ReadSubId(q, x, |Groups(x)|)
    decreases x
  {
    if x == 0 {
      assert Groups(x) + q == q;
    } else {
      var b := 128 + x % 128;
      assert Groups(x) + q == Groups(x / 128) + ([b] + q);
      ReadGroups(x / 128, [b] + q);
      GroupsSize(x / 128);
      assert ([b] + q)[1..] == q;
    }
  }

  lemma ReadSubIdOf(x: nat, rest: Bytes)
    requires x <= MAX_SUBID
    ensures ReadSubId(SubId(x) + rest, 0, 0) == Some((x, rest))
  {
    var q := [x % 128] + rest;
    GroupsSize(x / 128);
    assert SubId(x) + rest == Groups(x / 128) + q;
    ReadGroups(x / 128, q);
    assert q[1..] == rest;
  }

  lemma {:induction false} SubIdOfRead(p: Bytes, x: nat, count: nat)
    requires count == |Groups(x)| && ReadSubId(p, x, count).Some?
    ensures var (y, rest) := ReadSubId(p, x, count).value;
      Groups(x) + p == SubId(y) + rest && y <= MAX_SUBID
    decreases |p|
  {
    GroupsSize(x);
    var y := x * 128 + p[0] % 128;
    assert p == [p[0]] + p[1..];
    if p[0] >= 128 {
      assert Groups(y) == Groups(x) + [p[0]];
      SubIdOfRead(p[1..], y, count + 1);
      assert Groups(x) + p == Groups(y) + p[1..];
    } else {
      assert SubId(y) == Groups(x) + [p[0]];
      assert Groups(x) + p == SubId(y) + p[1..];
    }
  }

  lemma {:induction false} ReadArcsOf(s: seq<nat>, o: Oid)
    requires o != [] && |o| + |s| <= OID_MAX && forall i :: 0 <= i < |s| ==> s[i] <= MAX_ARC
    ensures ReadArcs(Arcs(s), o) == Some(o + s)
    decreases |s|
  {
    if s == [] {
      assert o + s == o;
    } else {
      ReadSubIdOf(s[0], Arcs(s[1..]));
      ReadArcsOf(s[1..], o + [s[0]]);
      assert o + [s[0]] + s[1..] == o + s;
    }
  }

  /** Every legal identifier is read back from its own octets. */
  lemma ReadOidOfContent(o: Oid)
    requires Legal(o)
    ensures ReadOid(OidContent(o)) == Some(o)
  {
    var x := o[0] * 40 + o[1];
    ReadSubIdOf(x, Arcs(o[2..]));
    ReadArcsOf(o[2..], [o[0], o[1]]);
    assert [o[0], o[1]] + o[2..] == o;
  }

  lemma {:induction false} ArcsOfRead(p: Bytes, o: Oid)
    requires |o| >= 2 && Legal(o) && ReadArcs(p, o).Some?
    ensures var r := ReadArcs(p, o).value;
      Legal(r) && |o| <= |r| && r[..|o|] == o && p == Arcs(r[|o|..])
    decreases |p|
  {
    if p != [] {
      SubIdOfRead(p, 0, 0);
      var (x, rest) := ReadSubId(p, 0, 0).value;
      assert p == SubId(x) + rest by { assert Groups(0) + p == p; }
      ArcsOfRead(rest, o + [x]);
      var r := ReadArcs(p, o).value;
      assert r[..|o|] == r[..|o|+1][..|o|];
      assert r[|o|] == r[..|o|+1][|o|] == x;
      assert r[|o|..][1..] == r[|o|+1..];
    }
  }

  /** Every accepted encoding is of a legal identifier and is the one that would be printed for it. */
  lemma ContentOfReadOid(p: Bytes)
    requires ReadOid(p).Some?
    ensures Legal(ReadOid(p).value) && OidContent(ReadOid(p).value) == p && 2 <= |ReadOid(p).value| <= 24
    ensures forall a :: a in ReadOid(p).value ==> a <= 0xffff_ffff
  {
    SubIdOfRead(p, 0, 0);
    var (x, rest) := ReadSubId(p, 0, 0).value;
    assert Groups(0) + p == p;
    var first := if x < 40 then 0 else if x < 80 then 1 else 2;
    var o := [first, x - first * 40];
    ArcsOfRead(rest, o);
    FirstArcs(ReadOid(p).value, first, x - first * 40, rest);
  }

  lemma FirstArcs(r: Oid, a: nat, b: nat, rest: Bytes)
    requires |r| >= 2 && r[..2] == [a, b] && rest == Arcs(r[2..])
    ensures OidContent(r) == SubId(a * 40 + b) + rest
  {
    assert r[0] == r[..2][0] && r[1] == r[..2][1];
  }

  // ----- the reading loops

  /** tlv()'s loop over the octets of a long length. */
  method LongLength(p: Bytes) returns (n: nat)
    ensures n == Unsigned(p)
  {
    n := 0;
    for i := 0 to |p|
      invariant n == Unsigned(p[..i])
    {
      assert p[..i+1][..i] == p[..i];
      n := n * 256 + p[i];
    }
    assert p[..|p|] == p;
  }

  /** integer(): skip redundant octets, refuse more than four, accumulate from the sign. */
  method Integer(content: Bytes) returns (r: Option<int>)
    ensures r == Int32Of(content)
  {
    if content == [] { return None; }
    var v := content;
    while |v| > 1 && ((v[0] == 0 && v[1] < 128) || (v[0] == 255 && v[1] >= 128))
      invariant v != [] && Strip(v) == Strip(content)
      decreases |v|
    {
      v := v[1..];
    }
    if |v| > 4 { return None; }
    var x: int := if v[0] >= 128 then -1 else 0;
    for i := 0 to |v|
      invariant if i == 0 then x == (if v[0] >= 128 then -1 else 0) else x == Signed(v[..i])
    {
      assert v[..i+1][..i] == v[..i];
      x := x * 256 + v[i];
    }
    assert v[..|v|] == v;
    r := Some(x);
  }

  /** oid_read(): groups of seven bits inside, arcs outside. */
  method OidRead(content: Bytes) returns (r: Option<Oid>)
    ensures r == ReadOid(content)
  {
    if content == [] { return None; }
    var v: Bytes, o: Oid := content, [];
    while v != []
      invariant ReadArcs(v, o) == ReadArcs(content, [])
      decreases |v|
    {
      ghost var start := v;
      var x: nat, count, more := 0, 0, true;
      while more
        invariant more ==> ReadSubId(v, x, count) == ReadSubId(start, 0, 0)
        invariant !more ==> ReadSubId(start, 0, 0) == Some((x, v))
        decreases more, |v|
      {
        count := count + 1;
        if v == [] || count > 5 { return None; }
        var b := v[0];
        v := v[1..];
        if count == 1 && b == 128 { return None; }
        x := x * 128 + b % 128;
        more := b >= 128;
      }
      if o == [] {
        var first := if x < 40 then 0 else if x < 80 then 1 else 2;
        if x - first * 40 > MAX_ARC { return None; }
        o := [first, x - first * 40];
      } else {
        if x > MAX_ARC || |o| == OID_MAX { return None; }
        o := o + [x];
      }
    }
    r := Some(o);
  }

  // ----- by example

  /** Encodings written out in octets. */
  lemma LengthsAndIntegers()
    ensures LengthOctets(127) == [0x7f] && LengthOctets(201) == [0x81, 0xc9] && LengthOctets(300) == [0x82, 0x01, 0x2c]
    ensures IntegerOctets(0) == [0] && IntegerOctets(127) == [0x7f] && IntegerOctets(128) == [0, 0x80]
    ensures IntegerOctets(-128) == [0x80] && IntegerOctets(-129) == [0xff, 0x7f] && IntegerOctets(256) == [1, 0]
  {}

  lemma SubIds()
    ensures SubId(32473) == [0x81, 0xfd, 0x59] && SubId(43) == [0x2b]
    ensures SubId(6) == [6] && SubId(1) == [1] && SubId(4) == [4]
  {
    assert Groups(1) == [0x81] && Groups(253) == [0x81, 0xfd];
  }

  lemma ArcsFront(a: nat, s: seq<nat>)
    ensures Arcs([a] + s) == SubId(a) + Arcs(s)
  {
    assert ([a] + s)[1..] == s;
  }

  /** The name 1.3.6.1.4.1.32473. */
  lemma EnterpriseName()
    ensures OidContent([1, 3, 6, 1, 4, 1, 32473]) == [0x2b, 6, 1, 4, 1, 0x81, 0xfd, 0x59]
  {
    SubIds();
    ArcsFront(32473, []);
    ArcsFront(1, [32473]);
    ArcsFront(4, [1, 32473]);
    ArcsFront(1, [4, 1, 32473]);
    ArcsFront(6, [1, 4, 1, 32473]);
    assert [1, 3, 6, 1, 4, 1, 32473][2..] == [6] + [1, 4, 1, 32473];
    assert [1] + [4, 1, 32473] == [1, 4, 1, 32473] && [4] + [1, 32473] == [4, 1, 32473];
    assert [1] + [32473] == [1, 32473] && [32473] + [] == [32473];
  }
}
