/**
 The bounded writer of the SNMP engine: a buffer, a position and an ok flag. Constructed
 values are opened with a four-byte header and collapsed to the shortest one when closed, so
 a value needs more room while it is being written than it finally takes: its peak.
*/
module SnmpWriter {
  import opened Common
  import opened Ber

  function Max(a: nat, b: nat): nat { if a < b then b else a }

  /** What writing data with some peak does to a buffer of capacity cap. A failure leaves what
      was there before in place. */
  predicate Effect(cap: nat, before: Bytes, ok: bool, after: Bytes, ok': bool, peak: nat, data: Bytes) {
    && (ok' <==> ok && |before| + peak <= cap)
    && (ok' ==> after == before + data)
    && before <= after
  }

  /** One write after another. */
  lemma EffectThen(cap: nat, a: Bytes, ok0: bool, b: Bytes, ok1: bool, c: Bytes, ok2: bool,
                   peak: nat, data: Bytes, peak': nat, data': Bytes)
    requires Effect(cap, a, ok0, b, ok1, peak, data) && Effect(cap, b, ok1, c, ok2, peak', data')
    ensures Effect(cap, a, ok0, c, ok2, Max(peak, |data| + peak'), data + data')
  {
    if ok2 { assert a + data + data' == a + (data + data'); }
  }

  const OPEN: nat := 4

  function Opened(tag: Byte): Bytes { [tag, 0x82, 0, 0] }

  // ----- fixed-width octets, from which number() picks the shortest

  /** value shifted right by k octets. */
  function Shift(value: nat, k: nat): nat
    decreases k
  {
    if k == 0 then value else Shift(value / 256, k - 1)
  }

  lemma {:induction false} ShiftMore(value: nat, k: nat)
    ensures Shift(value, k) / 256 == Shift(value, k + 1)
    decreases k
  {
    if k > 0 { ShiftMore(value / 256, k - 1); }
  }

  lemma {:induction false} ShiftSmall(value: nat)
    requires value < WORD64
    ensures Shift(value, 8) == 0
  {
    var a := value / 0x1_0000;
    var b := a / 0x1_0000;
    var c := b / 0x1_0000;
    assert Shift(value, 8) == Shift(a, 6) == Shift(b, 4) == Shift(c, 2);
  }

  /** The low n octets of v, most significant first. */
  function Octets(v: int, n: nat): (p: Bytes)
    ensures |p| == n
    decreases n
  {
    if n == 0 then [] else Octets(v / 256, n - 1) + [v % 256]
  }

  lemma {:induction false} OctetsTail(v: int, n: nat)
    requires n > 0
    ensures Octets(v, n)[1..] == Octets(v, n - 1)
    decreases n
  {
    if n > 1 { OctetsTail(v / 256, n - 1); }
  }

  lemma {:induction false} SignedOctets(v: int, n: nat)
    requires Fits(v, n)
    ensures Signed(Octets(v, n)) == v
    decreases n
  {
    if n > 1 {
      SignedOctets(v / 256, n - 1);
      assert Octets(v, n)[..n-1] == Octets(v / 256, n - 1);
    }
  }

  lemma {:induction false} OctetsWrap(v: int, n: nat)
    requires n > 0
    ensures Octets(v - 2 * Half(n), n) == Octets(v, n)
    decreases n
  {
    if n == 1 {
      DivShift(v, 1);
    } else {
      DivShift(v, 2 * Half(n - 1));
      OctetsWrap(v / 256, n - 1);
    }
  }

  lemma DivShift(v: int, h: nat)
    ensures (v - 256 * h) / 256 == v / 256 - h && (v - 256 * h) % 256 == v % 256
  {}

  /** Fixed-width octets whose first one is redundant lose it; without one they are the printed ones. */
  lemma OctetsShorten(v: int, n: nat)
    requires Fits(v, n)
    ensures Redundant(Octets(v, n)) ==> n > 1 && Fits(v, n - 1) && Octets(v, n)[1..] == Octets(v, n - 1)
    ensures !Redundant(Octets(v, n)) ==> Octets(v, n) == IntegerOctets(v)
  {
    var p := Octets(v, n);
    SignedOctets(v, n);
    OctetsTail(v, n);
    if n > 1 { RedundantIff(p); }
    if !Redundant(p) { NotRedundantIsPrinted(p); }
  }

  /** The value a 64-bit word stands for under a tag: INTEGER is signed, all others are not. */
  function Meaning(tag: Byte, value: nat): int {
    if tag == 2 && value >= WORD64 / 2 then value - WORD64 else value
  }

  lemma HalfOfEight()
    ensures Half(8) == WORD64 / 2 && Half(9) == 128 * WORD64
  {
    assert Half(2) == 0x8000 && Half(4) == 0x8000_0000 && Half(6) == 0x8000_0000_0000;
  }

  lemma NumberIsShort(tag: Byte, value: nat)
    requires value < WORD64
    ensures |IntegerOctets(Meaning(tag, value))| <= 9
  {
    HalfOfEight();
    IntegerOctetsSize(Meaning(tag, value), 9);
  }

  function NumberData(tag: Byte, value: nat): Bytes
    requires value < WORD64
  {
    NumberIsShort(tag, value);
    PrintNumber(tag, Meaning(tag, value))
  }

  /** number(): the nine-octet scratch, then the search for its first octet to print. */
  method ShortestOctets(tag: Byte, value: nat) returns (p: Bytes)
    requires value < WORD64
    ensures p == IntegerOctets(Meaning(tag, value))
  {
    var b := Scratch(value);
    HalfOfEight();
    OctetsWrap(value, 8);
    if tag == 2 { p := SkipSign(b, Meaning(2, value)); } else { p := SkipZeros(b, value); }
  }

  method Scratch(value: nat) returns (b: Bytes)
    requires value < WORD64
    ensures |b| == 9 && b[0] == 0 && b[1..] == Octets(value, 8)
  {
    b := [0];
    for i := 0 to 8
      invariant |b| == i + 1 && b[0] == 0 && b[1..] == Octets(Shift(value, 8 - i), i)
    {
      ShiftMore(value, 7 - i);
      var next := b + [Shift(value, 7 - i) % 256];
      assert next[1..] == b[1..] + [Shift(value, 7 - i) % 256];
      b := next;
    }
  }

  method SkipSign(b: Bytes, ghost v: int) returns (p: Bytes)
    requires Fits(v, 8) && |b| == 9 && b[1..] == Octets(v, 8)
    ensures p == IntegerOctets(v)
  {
    var first := 1;
    while first < 8 && ((b[first] == 0 && b[first+1] < 128) || (b[first] == 255 && b[first+1] >= 128))
      invariant 1 <= first <= 8 && Fits(v, 9 - first) && b[first..] == Octets(v, 9 - first)
    {
      DropSign(v, b, first);
      first := first + 1;
    }
    p := b[first..];
    assert !Redundant(p);
    OctetsShorten(v, 9 - first);
  }

  lemma DropSign(v: int, b: Bytes, first: nat)
    requires |b| == 9 && 1 <= first < 8 && Fits(v, 9 - first) && b[first..] == Octets(v, 9 - first)
    requires (b[first] == 0 && b[first+1] < 128) || (b[first] == 255 && b[first+1] >= 128)
    ensures Fits(v, 8 - first) && b[first+1..] == Octets(v, 8 - first)
  {
    var p := b[first..];
    assert p[0] == b[first] && p[1] == b[first+1] && p[1..] == b[first+1..];
    OctetsShorten(v, 9 - first);
  }

  method SkipZeros(b: Bytes, ghost value: nat) returns (p: Bytes)
    requires value < WORD64 && |b| == 9 && b[0] == 0 && b[1..] == Octets(value, 8)
    ensures p == IntegerOctets(value)
  {
    var first := 1;
    TopOctetZero(value, b);
    assert b[0..] == b;
    while first < 8 && b[first] == 0
      invariant 1 <= first <= 8 && b[first-1] == 0
      invariant Fits(value, 10 - first) && b[first-1..] == Octets(value, 10 - first)
    {
      DropZero(value, b, first);
      first := first + 1;
    }
    p := b[first-1..];
    OctetsShorten(value, 10 - first);
    if b[first] < 128 {
      DropZero(value, b, first);
      p := b[first..];
      assert !Redundant(p);
      OctetsShorten(value, 9 - first);
    }
  }

  lemma DropZero(value: nat, b: Bytes, first: nat)
    requires |b| == 9 && 1 <= first <= 8 && b[first-1] == 0 && b[first] < 128
    requires Fits(value, 10 - first) && b[first-1..] == Octets(value, 10 - first)
    ensures Fits(value, 9 - first) && b[first..] == Octets(value, 9 - first)
  {
    assert Redundant(b[first-1..]);
    OctetsShorten(value, 10 - first);
    assert b[first-1..][1..] == b[first..];
  }

  lemma TopOctetZero(value: nat, b: Bytes)
    requires value < WORD64 && |b| == 9 && b[0] == 0 && b[1..] == Octets(value, 8)
    ensures b == Octets(value, 9) && Fits(value, 9)
  {
    HalfOfEight();
    OctetsTail(value, 9);
    ShiftSmall(value);
    OctetsTop(value, 9);
    assert b == [b[0]] + b[1..];
    assert Octets(value, 9) == [Octets(value, 9)[0]] + Octets(value, 9)[1..];
  }

  lemma {:induction false} OctetsTop(v: nat, n: nat)
    requires n > 0
    ensures Octets(v, n)[0] == Shift(v, n - 1) % 256
    decreases n
  {
    if n > 1 { OctetsTop(v / 256, n - 1); }
  }

  type Digit = x: int | 0 <= x < 128

  /** Digits collected low to high, as they are sent: all but the last with the continuation bit. */
  function Continued(b: seq<Digit>): Bytes {
    if b == [] then []
    else if |b| == 1 then [b[0]]
    else [ContinuedOctet(b, |b| - 1)] + Continued(b[..|b|-1])
  }

  function ContinuedOctet(b: seq<Digit>, n: nat): Byte
    requires n < |b|
  {
    var d: int := b[n];
    if n > 0 then 128 + d else d
  }

  lemma SendOne(b: seq<Digit>, n: nat)
    requires n < |b|
    ensures Continued(b[..n+1]) == [ContinuedOctet(b, n)] + Continued(b[..n])
  {
    assert b[..n+1][..n] == b[..n];
  }

  lemma {:induction false} MoveDigit(x: nat, b: seq<Digit>, d: Digit)
    requires x > 0 && b != [] && d == x % 128
    ensures Groups(x) + Continued(b) == Groups(x / 128) + Continued(b + [d])
  {
    assert (b + [d])[..|b|] == b;
    assert Continued(b + [d]) == [128 + x % 128] + Continued(b);
    assert Groups(x) + Continued(b) == Groups(x / 128) + ([128 + x % 128] + Continued(b));
  }

  lemma {:induction false} ContinuedSize(b: seq<Digit>)
    ensures |Continued(b)| == |b|
  {
    if b != [] {
      SendOne(b, |b| - 1);
      assert b[..|b|] == b;
      ContinuedSize(b[..|b| - 1]);
    }
  }

  method Digits(value: nat) returns (b: seq<Digit>)
    ensures b != [] && Continued(b) == SubId(value)
    ensures value <= MAX_SUBID ==> |b| <= 5
  {
    b := [value % 128];
    var x: nat := value / 128;
    while x != 0
      invariant b != [] && SubId(value) == Groups(x) + Continued(b)
    {
      var d: Digit := x % 128;
      MoveDigit(x, b, d);
      b, x := b + [d], x / 128;
    }
    ContinuedSize(b);
    GroupsSize(value / 128);
  }

  lemma {:induction false} ArcsAppend(s: seq<nat>, x: nat)
    ensures Arcs(s + [x]) == Arcs(s) + SubId(x)
    decreases |s|
  {
    if s == [] {
      assert s + [x] == [x] && [x][1..] == [];
      assert Arcs([x]) == SubId(x) + [];
    } else {
      ArcsAppend(s[1..], x);
      assert (s + [x])[1..] == s[1..] + [x];
      assert Arcs(s + [x]) == SubId(s[0]) + (Arcs(s[1..]) + SubId(x));
    }
  }

  lemma {:induction false} ArcsSize(s: seq<nat>)
    requires forall i :: 0 <= i < |s| ==> s[i] <= MAX_ARC
    ensures |Arcs(s)| <= 5 * |s|
    decreases |s|
  {
    if s != [] {
      GroupsSize(s[0] / 128);
      ArcsSize(s[1..]);
    }
  }

  lemma OidSize(o: Oid)
    requires Legal(o)
    ensures |OidContent(o)| <= 115
  {
    GroupsSize((o[0] * 40 + o[1]) / 128);
    ArcsSize(o[2..]);
  }

  function OidData(o: Oid): Bytes
    requires Legal(o)
  {
    OidSize(o);
    Print(6, OidContent(o))
  }

  class Writer {
    const buf: array<Byte>
    const cap: nat
    var n: nat
    var ok: bool

    ghost predicate Valid()
      reads this
    {
      n <= cap <= buf.Length
    }

    ghost function Contents(): Bytes
      requires Valid()
      reads this, buf
    {
      buf[..n]
    }

    constructor (b: array<Byte>, limit: nat)
      requires limit <= b.Length
      ensures Valid() && buf == b && cap == limit && ok && n == 0
    {
      buf, cap, n, ok := b, limit, 0, true;
    }

    method Put(data: Bytes)
      requires Valid()
      modifies this, buf
      ensures Valid() && Effect(cap, old(Contents()), old(ok), Contents(), ok, |data|, data)
      ensures !ok ==> n == old(n)
    {
      if !ok || |data| > cap - n { ok := false; return; }
      ghost var before := Contents();
      forall i | 0 <= i < |data| { buf[n + i] := data[i]; }
      n := n + |data|;
      assert Contents() == before + data;
    }

    method Begin(tag: Byte) returns (start: nat)
      requires Valid()
      modifies this, buf
      ensures Valid() && Effect(cap, old(Contents()), old(ok), Contents(), ok, OPEN, Opened(tag))
      ensures start == old(n)
    {
      start := n;
      ghost var a, oka := Contents(), ok;
      Put([tag]);
      ghost var b, okb := Contents(), ok;
      Put([0x82]);
      ghost var c, okc := Contents(), ok;
      EffectThen(cap, a, oka, b, okb, c, okc, 1, [tag], 1, [0x82]);
      Put([0]);
      ghost var d, okd := Contents(), ok;
      EffectThen(cap, a, oka, c, okc, d, okd, 2, [tag] + [0x82], 1, [0]);
      Put([0]);
      EffectThen(cap, a, oka, d, okd, Contents(), ok, 3, [tag] + [0x82] + [0], 1, [0]);
      assert [tag] + [0x82] + [0] + [0] == Opened(tag);
    }

    /** Collapse the header of the value opened at start to the shortest one. */
    method End(start: nat, ghost before: Bytes, ghost tag: Byte, ghost content: Bytes)
      requires Valid() && start == |before| && |content| < 0x1_0000
      requires ok ==> Contents() == before + Opened(tag) + content
      modifies this, buf
      ensures Valid() && ok == old(ok)
      ensures ok ==> Contents() == before + Print(tag, content)
      ensures !ok ==> Contents() == old(Contents())
    {
      if !ok { return; }
      ghost var was := Contents();
      Pieces(was, before, tag, content);
      var len := n - start - 4;
      Collapse(start, len);
      Closed(was, Contents(), before, tag, content);
    }

    /** Moves the content up to the shortest header and writes that header's length. */
    method Collapse(start: nat, len: nat)
      requires Valid() && start + 4 + len == n && len < 0x1_0000 && Contents()[start + 1] == 0x82
      modifies this, buf
      ensures Valid() && ok == old(ok) && n == start + 1 + |LengthOctets(len)| + len
      ensures forall i :: 0 <= i <= start ==> Contents()[i] == old(Contents())[i]
      ensures var h := start + 1 + |LengthOctets(len)|;
              && (forall i :: start < i < h ==> Contents()[i] == LengthOctets(len)[i - start - 1])
              && (forall i :: h <= i < n ==> Contents()[i] == old(Contents())[i - h + start + 4])
    {
      ghost var was := Contents();
      assert forall i :: 0 <= i < n ==> buf[i] == was[i];
      var header := if len < 128 then 2 else if len < 256 then 3 else 4;
      Move(start + header, start + 4, len);
      n := n - (4 - header);
      PatchLength(start, header, len);
    }

    method Number(tag: Byte, value: nat)
      requires Valid() && value < WORD64
      modifies this, buf
      ensures Valid()
      ensures Effect(cap, old(Contents()), old(ok), Contents(), ok, |NumberData(tag, value)|, NumberData(tag, value))
    {
      NumberIsShort(tag, value);
      var p := ShortestOctets(tag, value);
      ghost var a, oka := Contents(), ok;
      Put([tag]);
      ghost var b, okb := Contents(), ok;
      Put([|p|]);
      ghost var c, okc := Contents(), ok;
      EffectThen(cap, a, oka, b, okb, c, okc, 1, [tag], 1, [|p|]);
      Put(p);
      EffectThen(cap, a, oka, c, okc, Contents(), ok, 2, [tag] + [|p|], |p|, p);
      assert [tag] + [|p|] + p == NumberData(tag, value);
    }

    method PutSubId(value: nat)
      requires Valid() && value <= MAX_SUBID
      modifies this, buf
      ensures Valid()
      ensures Effect(cap, old(Contents()), old(ok), Contents(), ok, |SubId(value)|, SubId(value))
    {
      var b := Digits(value);
      ghost var a, oka := Contents(), ok;
      ghost var done: Bytes := [];
      var n := |b|;
      assert b[..n] == b;
      while n > 0
        invariant 0 <= n <= |b| && Valid() && done + Continued(b[..n]) == SubId(value)
        invariant Effect(cap, a, oka, Contents(), ok, |done|, done)
      {
        n := n - 1;
        var octet := ContinuedOctet(b, n);
        ghost var c, okc := Contents(), ok;
        Put([octet]);
        EffectThen(cap, a, oka, c, okc, Contents(), ok, |done|, done, 1, [octet]);
        SendOne(b, n);
        assert done + ([octet] + Continued(b[..n])) == done + [octet] + Continued(b[..n]);
        done := done + [octet];
      }
    }

    method PutOid(o: Oid)
      requires Valid() && Legal(o)
      modifies this, buf
      ensures Valid()
      ensures Effect(cap, old(Contents()), old(ok), Contents(), ok, OPEN + |OidContent(o)|, OidData(o))
    {
      ghost var a, oka := Contents(), ok;
      var start := Begin(6);
      ghost var b, okb := Contents(), ok;
      PutSubId(o[0] * 40 + o[1]);
      ghost var c, okc := Contents(), ok;
      PutArcs(o);
      ghost var d, okd := Contents(), ok;
      ghost var head, tail := SubId(o[0] * 40 + o[1]), Arcs(o[2..]);
      EffectThen(cap, b, okb, c, okc, d, okd, |head|, head, |tail|, tail);
      OidSize(o);
      End(start, a, 6, head + tail);
      Bracketed(cap, a, oka, b, okb, d, okd, Contents(), ok, 6, |head + tail|, head + tail);
    }

    method PutArcs(o: Oid)
      requires Valid() && Legal(o)
      modifies this, buf
      ensures Valid()
      ensures Effect(cap, old(Contents()), old(ok), Contents(), ok, |Arcs(o[2..])|, Arcs(o[2..]))
    {
      ghost var b, okb := Contents(), ok;
      ghost var done: Bytes := [];
      assert o[2..2] == [] && b + done == b;
      for i := 2 to |o|
        invariant Valid() && done == Arcs(o[2..i])
        invariant Effect(cap, b, okb, Contents(), ok, |done|, done)
      {
        ghost var c, okc := Contents(), ok;
        PutSubId(o[i]);
        EffectThen(cap, b, okb, c, okc, Contents(), ok, |done|, done, |SubId(o[i])|, SubId(o[i]));
        assert o[2..i+1] == o[2..i] + [o[i]];
        ArcsAppend(o[2..i], o[i]);
        done := done + SubId(o[i]);
      }
      assert o[2..|o|] == o[2..];
    }

    /** memmove within the buffer, towards the front. */
    method Move(to: nat, from: nat, len: nat)
      requires to <= from && from + len <= buf.Length
      modifies buf
      ensures forall i :: 0 <= i < to ==> buf[i] == old(buf[i])
      ensures forall i :: to <= i < to + len ==> buf[i] == old(buf[i - to + from])
    {
      forall i | 0 <= i < len { buf[to + i] := buf[from + i]; }
    }

    method PatchLength(start: nat, header: nat, len: nat)
      requires len < 0x1_0000 && header == 1 + |LengthOctets(len)| && start + header <= buf.Length
      requires buf[start+1] == 0x82
      modifies buf
      ensures forall i :: 0 <= i < buf.Length && !(start < i < start + header) ==> buf[i] == old(buf[i])
      ensures forall i :: start < i < start + header ==> buf[i] == LengthOctets(len)[i - start - 1]
    {
      if header == 2 {
        buf[start+1] := len;
      } else if header == 3 {
        buf[start+1] := 0x81;
        buf[start+2] := len;
      } else {
        buf[start+2] := len / 256;
        buf[start+3] := len % 256;
      }
    }
  }

  /** Open, content, close: the peak has the wide header, the result the shortest. */
  lemma Bracketed(cap: nat, a: Bytes, oka: bool, b: Bytes, okb: bool, c: Bytes, okc: bool, d: Bytes, okd: bool,
                  tag: Byte, peak: nat, content: Bytes)
    requires |content| < 0x1_0000
    requires Effect(cap, a, oka, b, okb, OPEN, Opened(tag)) && Effect(cap, b, okb, c, okc, peak, content)
    requires okd == okc && (okd ==> d == a + Print(tag, content)) && (!okd ==> d == c)
    ensures Effect(cap, a, oka, d, okd, OPEN + peak, Print(tag, content))
  {}

  lemma Pieces(s: Bytes, before: Bytes, tag: Byte, content: Bytes)
    requires s == before + Opened(tag) + content
    ensures |s| == |before| + 4 + |content|
    ensures forall i :: 0 <= i < |before| ==> s[i] == before[i]
    ensures s[|before|] == tag && s[|before|+1] == 0x82
    ensures forall i :: |before| + 4 <= i < |s| ==> s[i] == content[i - |before| - 4]
  {}

  lemma Collapsed(s: Bytes, before: Bytes, tag: Byte, content: Bytes)
    requires |content| < 0x1_0000
    requires var start, h := |before|, |before| + 1 + |LengthOctets(|content|)|;
      && |s| == h + |content| && (forall i :: 0 <= i < start ==> s[i] == before[i]) && s[start] == tag
      && (forall i :: start < i < h ==> s[i] == LengthOctets(|content|)[i - start - 1])
      && (forall i :: h <= i < |s| ==> s[i] == content[i - h])
    ensures s == before + Print(tag, content)
  {}

  /** A wide header collapsed in place leaves the printed element. */
  lemma Closed(was: Bytes, now: Bytes, before: Bytes, tag: Byte, content: Bytes)
    requires was == before + Opened(tag) + content && |content| < 0x1_0000
    requires var start, h := |before|, |before| + 1 + |LengthOctets(|content|)|;
      && |now| == h + |content| && |was| == start + 4 + |content|
      && (forall i :: 0 <= i <= start ==> now[i] == was[i])
      && (forall i :: start < i < h ==> now[i] == LengthOctets(|content|)[i - start - 1])
      && (forall i :: h <= i < |now| ==> now[i] == was[i - h + start + 4])
    ensures now == before + Print(tag, content)
  {
    Pieces(was, before, tag, content);
    var h := |before| + 1 + |LengthOctets(|content|)|;
    forall i | h <= i < |now| ensures now[i] == content[i - h] {
      assert now[i] == was[i - h + |before| + 4];
    }
    Collapsed(now, before, tag, content);
  }
}
