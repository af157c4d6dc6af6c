/**
 The configuration record: validity rules, the 256-byte codec and its CRC-32.
 Words and bytes are bounded integers; exclusive or is the recursive one of module Bits.
*/
module Config {
  import opened Common
  import opened Bits

  type Half = x: int | 0 <= x < 0x1_0000
  type Word = x: int | 0 <= x < 0x1_0000_0000
  const RECORD_SIZE: nat := 256
  const BODY_SIZE: nat := 248
  const MAGIC: Bytes := [0x4b, 0x52, 0x32, 0x36, 0x30, 0x43, 0x46, 0x47]   // KR260CFG
  const DONE: Bytes := [0x44, 0x4f, 0x4e, 0x45]
  const ROUNDS: Word := 100000
  const FACTORY_MAC: Bytes := [0x00, 0x0a, 0x35, 0x0f, 0x37, 0x45]

  /** struct switch_config; the five MAC addresses are kept as their 30 bytes. */
  datatype Fields = Fields(
    mac: Bytes, username: Bytes, salt: Bytes, hash: Bytes, rounds: Word,
    admin: Byte, advertise: Bytes, sfpSpeed: Half, dhcp: bool,
    stpEnabled: bool, stpVersion: Byte, ip: Bytes, netmask: Bytes, gateway: Bytes)

  predicate Shape(c: Fields) {
    && |c.mac| == 30 && |c.username| == 32 && |c.salt| == 16 && |c.hash| == 32
    && |c.advertise| == 4 && |c.ip| == 4 && |c.netmask| == 4 && |c.gateway| == 4
  }

  type SwitchConfig = c: Fields | Shape(c)
    witness Fields(Zeros(30), Zeros(32), Zeros(16), Zeros(32), 0, 0, Zeros(4), 0, false, false, 0,
                   Zeros(4), Zeros(4), Zeros(4))

  // ----- validity

  function FactoryMacs(): (s: Bytes)
    ensures |s| == 30
  {
    seq(30, i requires 0 <= i < 30 => if i % 6 == 5 then FACTORY_MAC[5] + i / 6 else FACTORY_MAC[i % 6])
  }

  predicate NameChar(ch: Byte) {
    || 0x61 <= ch <= 0x7a || 0x41 <= ch <= 0x5a || 0x30 <= ch <= 0x39
    || ch == 0x5f || ch == 0x2d || ch == 0x2e
  }

  /** The terminator is at position n and everything before it is a permitted character. */
  predicate NameEndsAt(name: Bytes, n: nat) {
    n < |name| && name[n] == 0 && forall i :: 0 <= i < n ==> name[i] != 0 && NameChar(name[i])
  }

  function Join(a: nat, b: nat, c: nat, d: nat): nat {
    a + 256 * (b + 256 * (c + 256 * d))
  }

  function Ip32(p: Bytes): Word
    requires |p| == 4
  {
    Join(p[3], p[2], p[1], p[0])
  }

  predicate Unicast(p: Bytes)
    requires |p| == 4
  {
    p[0] != 0 && p[0] != 127 && p[0] < 224
  }

  predicate HostIn(ip: Word, host: Word) {
    And(ip, host) != 0 && And(ip, host) != host
  }

  predicate StaticAddressValid(c: SwitchConfig) {
    var ip, mask, gw := Ip32(c.ip), Ip32(c.netmask), Ip32(c.gateway);
    var host := WORD32 - 1 - mask;
    && Unicast(c.ip) && mask != 0 && host >= 3 && And(host, host + 1) == 0 && HostIn(ip, host)
    && (gw != 0 ==> Unicast(c.gateway) && And(gw, mask) == And(ip, mask) && HostIn(gw, host) && gw != ip)
  }

  predicate Valid(c: SwitchConfig) {
    && (c.stpVersion == 0 || c.stpVersion == 2)
    && c.mac == FactoryMacs() && c.admin <= 31 && c.advertise[0] == 4 && c.rounds == ROUNDS
    && (exists n: nat :: 0 < n < 32 && NameEndsAt(c.username, n))
    && (forall i :: 1 <= i < 4 ==> 1 <= c.advertise[i] <= 7)
    && c.sfpSpeed in {0, 1000, 2500, 5000, 10000}
    && (!c.dhcp ==> StaticAddressValid(c))
  }

  // ----- little-endian words and the CRC

  function Get32(p: Bytes): Word
    requires |p| == 4
  {
    Join(p[0], p[1], p[2], p[3])
  }

  function Put32(x: Word): (p: Bytes)
    ensures |p| == 4
  {
    var y := x / 256;
    var z := y / 256;
    [x % 256, y % 256, z % 256, z / 256]
  }

  lemma Get32InvertsPut32(x: Word)
    ensures Get32(Put32(x)) == x
  {}

  lemma Get32Injective(p: Bytes, q: Bytes)
    requires |p| == |q| == 4
    ensures Get32(p) == Get32(q) ==> p == q
  {
    JoinInjective(p[0], p[1], p[2], p[3], q[0], q[1], q[2], q[3]);
  }

  lemma JoinInjective(a: nat, b: nat, c: nat, d: nat, e: nat, f: nat, g: nat, h: nat)
    requires a < 256 && b < 256 && c < 256 && e < 256 && f < 256 && g < 256
    ensures Join(a, b, c, d) == Join(e, f, g, h) ==> a == e && b == f && c == g && d == h
  {
    if Join(a, b, c, d) == Join(e, f, g, h) {
      SameDigits(a, b + 256 * (c + 256 * d), e, f + 256 * (g + 256 * h));
      SameDigits(b, c + 256 * d, f, g + 256 * h);
    }
  }

  lemma SameDigits(a: nat, x: nat, b: nat, y: nat)
    requires a < 256 && b < 256 && a + 256 * x == b + 256 * y
    ensures a == b && x == y
  {}

  const POLYNOMIAL: Word := 0xedb8_8320

  lemma {:induction false} PowersOfTwo()
    ensures Pow2(8) == 256 && Pow2(31) == 0x8000_0000 && Pow2(32) == WORD32
  {
    assert Pow2(4) == 16;
    assert Pow2(8) == 256;
    assert Pow2(12) == 0x1000;
    assert Pow2(16) == 0x1_0000;
    assert Pow2(20) == 0x10_0000;
    assert Pow2(24) == 0x100_0000;
    assert Pow2(28) == 0x1000_0000;
  }

  /** One shift: the polynomial is added when a one is shifted out. */
  function BitStep(v: Word): Word {
    PowersOfTwo();
    XorBound(v / 2, POLYNOMIAL, 32);
    if v % 2 == 1 then Xor(v / 2, POLYNOMIAL) else v / 2
  }

  function Steps(v: Word, n: nat): Word {
    if n == 0 then v else BitStep(Steps(v, n - 1))
  }

  function Mix(v: Word, x: Word): Word {
    PowersOfTwo();
    XorBound(v, x, 32);
    Xor(v, x)
  }

  function ByteStep(v: Word, b: Byte): Word {
    Steps(Mix(v, b), 8)
  }

  function Fold(v: Word, p: Bytes): Word {
    if p == [] then v else ByteStep(Fold(v, p[..|p|-1]), p[|p|-1])
  }

  const ALL_ONES: Word := WORD32 - 1

  function Crc(p: Bytes): Word {
    ALL_ONES - Fold(ALL_ONES, p)
  }

  /** The loops of crc(). */
  method ComputeCrc(p: Bytes) returns (r: Word)
    ensures r == Crc(p)
  {
    var v: Word := ALL_ONES;
    for i := 0 to |p|
      invariant v == Fold(ALL_ONES, p[..i])
    {
      assert p[..i+1][..i] == p[..i];
      var start := Mix(v, p[i]);
      v := start;
      for b := 0 to 8
        invariant v == Steps(start, b)
      {
        v := BitStep(v);
      }
    }
    assert p[..|p|] == p;
    r := ALL_ONES - v;
  }

  // ----- what the checksum detects

  /** The polynomial has its top bit set, so the top bit tells which branch was taken. */
  lemma {:induction false} BitStepInjective(v: Word, w: Word)
    requires BitStep(v) == BitStep(w)
    ensures v == w
  {
    PowersOfTwo();
    XorTop(v / 2, POLYNOMIAL, 31);
    XorTop(w / 2, POLYNOMIAL, 31);
    XorUndo(v / 2, POLYNOMIAL);
    XorUndo(w / 2, POLYNOMIAL);
  }

  lemma {:induction false} StepsInjective(v: Word, w: Word, n: nat)
    requires Steps(v, n) == Steps(w, n)
    ensures v == w
  {
    if n > 0 {
      BitStepInjective(Steps(v, n - 1), Steps(w, n - 1));
      StepsInjective(v, w, n - 1);
    }
  }

  lemma {:induction false} StepsAdd(v: Word, m: nat, n: nat)
    ensures Steps(Steps(v, m), n) == Steps(v, m + n)
  {
    if n > 0 { StepsAdd(v, m, n - 1); }
  }

  /** A shift that drops no one-bit of y commutes with adding y. */
  lemma {:induction false} BitStepLinear(x: Word, y: nat)
    requires 2 * y < WORD32
    ensures BitStep(Mix(x, 2 * y)) == Mix(BitStep(x), y)
  {
    var m := Mix(x, 2 * y);
    XorBits(x, 2 * y);
    Digit(0, y);
    Even(x, y);
    assert m % 2 == x % 2 && m / 2 == Xor(x / 2, y);
    XorSwap(x / 2, y, POLYNOMIAL);
  }

  lemma {:induction false} StepsLinear(x: Word, y: nat, n: nat)
    requires Scale(y, n) < WORD32
    ensures Steps(Mix(x, Scale(y, n)), n) == Mix(Steps(x, n), y)
    decreases n
  {
    if n > 0 {
      StepsLinear(x, 2 * y, n - 1);
      BitStepLinear(Steps(x, n - 1), y);
    }
  }

  lemma {:induction false} ScaleByte(y: nat)
    ensures Scale(y, 8) == 256 * y
  {
    assert Scale(y, 8) == Scale(4 * y, 6) == Scale(16 * y, 4) == Scale(64 * y, 2);
  }

  /** Mixing in a byte and then y above it is mixing in both at once. */
  lemma MixAbove(v: Word, b: Byte, y: nat)
    requires Above(b, y) < WORD32
    ensures Xor(Xor(v, b), Scale(y, 8)) == Xor(v, Above(b, y))
  {
    var z := Scale(y, 8);
    assert Xor(b, z) == Above(b, y) by {
      PowersOfTwo();
      XorDisjoint(b, y, 8);
      ScaleByte(y);
    }
    XorAssociates(v, b, z);
  }

  /** A byte step, and then adding y, is a byte step on the byte joined with y above it. */
  lemma {:induction false} ByteThenRest(v: Word, b: Byte, y: nat)
    requires Above(b, y) < WORD32
    ensures Mix(ByteStep(v, b), y) == Steps(Mix(v, Above(b, y)), 8)
  {
    ScaleByte(y);
    var x := Mix(v, b);
    StepsLinear(x, y, 8);
    MixAbove(v, b, y);
  }

  /** The little-endian number whose low bytes are p and whose remaining part is y. */
  function Number(p: Bytes, y: nat): (r: nat)
    ensures r >= y
    decreases |p|
  {
    if p == [] then y else Number(p[..|p|-1], Above(p[|p|-1], y))
  }

  function Above(b: nat, y: nat): (r: nat)
    ensures r >= y
  {
    b + 256 * y
  }

  lemma {:induction false} BytesThenRest(v: Word, p: Bytes, y: nat)
    requires Number(p, y) < WORD32
    ensures Mix(Fold(v, p), y) == Steps(Mix(v, Number(p, y)), 8 * |p|)
    decreases |p|
  {
    if p != [] {
      var n := |p| - 1;
      var u, z := Fold(v, p[..n]), Above(p[n], y);
      ByteThenRest(u, p[n], y);
      BytesThenRest(v, p[..n], z);
      StepsAdd(Mix(v, Number(p, y)), 8 * n, 8);
    }
  }

  /** Four bytes act on the state as one 32-bit word. */
  lemma {:induction false} FourBytesAreAWord(v: Word, p: Bytes)
    requires |p| == 4
    ensures Fold(v, p) == Steps(Mix(v, Get32(p)), 32)
  {
    NumberOfFour(p);
    BytesThenRest(v, p[..3], p[3]);
    StepsAdd(Mix(v, Get32(p)), 24, 8);
  }

  lemma {:induction false} NumberOfFour(p: Bytes)
    requires |p| == 4
    ensures Number(p[..3], p[3]) == Get32(p)
  {
    assert p[..3][..2] == p[..2] && p[..2][..1] == p[..1] && p[..1][..0] == [];
    var z := Above(p[2], p[3]);
    var y := Above(p[1], z);
    assert Number(p[..1], y) == Above(p[0], y);
    assert Number(p[..2], z) == Number(p[..1], y);
  }

  lemma {:induction false} FoldConcat(v: Word, a: Bytes, b: Bytes)
    ensures Fold(v, a + b) == Fold(Fold(v, a), b)
    decreases |b|
  {
    if b == [] {
      assert a + b == a;
    } else {
      var n := |b| - 1;
      assert (a + b)[..|a + b| - 1] == a + b[..n];
      FoldConcat(v, a, b[..n]);
    }
  }

  /** Different states stay different over the same bytes. */
  lemma {:induction false} FoldInjective(v: Word, w: Word, p: Bytes)
    requires v != w
    ensures Fold(v, p) != Fold(w, p)
    decreases |p|
  {
    if p != [] {
      var n := |p| - 1;
      FoldInjective(v, w, p[..n]);
      ByteStepInjective(Fold(v, p[..n]), Fold(w, p[..n]), p[n]);
    }
  }

  lemma {:induction false} ByteStepInjective(v: Word, w: Word, b: Byte)
    requires v != w
    ensures ByteStep(v, b) != ByteStep(w, b)
  {
    if ByteStep(v, b) == ByteStep(w, b) {
      StepsInjective(Mix(v, b), Mix(w, b), 8);
      XorUndo(v, b);
      XorUndo(w, b);
    }
  }

  /** Two byte strings that differ only inside one window of four bytes have different checksums. */
  lemma {:induction false} BurstChangesFold(v: Word, a: Bytes, p: Bytes, q: Bytes, b: Bytes)
    requires |p| == |q| == 4 && p != q
    ensures Fold(v, a + p + b) != Fold(v, a + q + b)
  {
    var s := Fold(v, a);
    FourBytesAreAWord(s, p);
    FourBytesAreAWord(s, q);
    Get32Injective(p, q);
    if Fold(s, p) == Fold(s, q) {
      StepsInjective(Mix(s, Get32(p)), Mix(s, Get32(q)), 32);
      XorInjective(s, Get32(p), Get32(q));
    }
    FoldConcat(v, a, p);
    FoldConcat(v, a, q);
    FoldConcat(v, a + p, b);
    FoldConcat(v, a + q, b);
    FoldInjective(Fold(s, p), Fold(s, q), b);
  }

  // ----- the record

  function Flag(b: bool): Byte { if b then 1 else 0 }

  /** Byte i of the checksummed part of a version 2 record. */
  function BodyByte(c: SwitchConfig, sequence: Word, i: nat): Byte
    requires i < BODY_SIZE
  {
    if i < 8 then MAGIC[i]
    else if i < 12 then Put32(2)[i - 8]
    else if i < 16 then Put32(sequence)[i - 12]
    else if i < 46 then c.mac[i - 16]
    else if i < 78 then c.username[i - 46]
    else if i < 94 then c.salt[i - 78]
    else if i < 126 then c.hash[i - 94]
    else if i < 130 then Put32(c.rounds)[i - 126]
    else if i == 130 then c.admin
    else if i < 135 then c.advertise[i - 131]
    else if i == 135 then c.sfpSpeed % 256
    else if i == 136 then c.sfpSpeed / 256
    else if i == 137 then Flag(c.dhcp)
    else if i < 142 then c.ip[i - 138]
    else if i < 146 then c.netmask[i - 142]
    else if i < 150 then c.gateway[i - 146]
    else if i == 150 then Flag(c.stpEnabled)
    else if i == 151 then c.stpVersion
    else 0
  }

  function Body(c: SwitchConfig, sequence: Word): (b: Bytes)
    ensures |b| == BODY_SIZE
  {
    seq(BODY_SIZE, i requires 0 <= i < BODY_SIZE => BodyByte(c, sequence, i))
  }

  function Encode(c: SwitchConfig, sequence: Word): (r: Bytes)
    ensures |r| == RECORD_SIZE
  {
    var body := Body(c, sequence);
    body + Put32(Crc(body)) + DONE
  }

  predicate KnownHeader(r: Bytes)
    requires |r| == RECORD_SIZE
  {
    r[..8] == MAGIC && Get32(r[8..12]) in {1, 2}
  }

  function Parsed(r: Bytes): SwitchConfig
    requires |r| == RECORD_SIZE
  {
    var v2 := Get32(r[8..12]) == 2;
    Fields(
      r[16..46], r[46..78], r[78..94], r[94..126], Get32(r[126..130]),
      r[130], r[131..135], Join(r[135], r[136], 0, 0), r[137] != 0,
      v2 && r[150] != 0, if v2 then r[151] else 2, r[138..142], r[142..146], r[146..150])
  }

  function Decode(r: Bytes): Option<(SwitchConfig, Word)>
    requires |r| == RECORD_SIZE
  {
    if !KnownHeader(r) || r[252..] != DONE || Get32(r[248..252]) != Crc(r[..248]) || r[137] > 1 then None
    else if Get32(r[8..12]) == 2 && r[150] > 1 then None
    else if !Valid(Parsed(r)) then None
    else Some((Parsed(r), Get32(r[12..16])))
  }

  /** Reading a record back gives the configuration and generation it was made from. */
  lemma DecodeInvertsEncode(c: SwitchConfig, sequence: Word)
    requires Valid(c)
    ensures Decode(Encode(c, sequence)) == Some((c, sequence))
  {
    var body, r := Body(c, sequence), Encode(c, sequence);
    EncodeFrame(c, sequence);
    Get32InvertsPut32(2);
    Get32InvertsPut32(sequence);
    Get32InvertsPut32(Crc(body));
    ParsedInvertsBody(c, sequence);
  }

  lemma EncodeFrame(c: SwitchConfig, sequence: Word)
    ensures var r, body := Encode(c, sequence), Body(c, sequence);
      && r[..248] == body && r[248..252] == Put32(Crc(body)) && r[252..] == DONE
      && r[..8] == MAGIC && r[8..12] == Put32(2) && r[12..16] == Put32(sequence)
      && r[137] == Flag(c.dhcp) && r[150] == Flag(c.stpEnabled)
  {
    var r := Encode(c, sequence);
    Slice(c, sequence, 0, MAGIC);
    Slice(c, sequence, 8, Put32(2));
    Slice(c, sequence, 12, Put32(sequence));
  }

  lemma Slice(c: SwitchConfig, sequence: Word, lo: nat, f: Bytes)
    requires lo + |f| <= BODY_SIZE
    requires forall i :: 0 <= i < |f| ==> BodyByte(c, sequence, lo + i) == f[i]
    ensures Encode(c, sequence)[lo..lo+|f|] == f
  {
    var r := Encode(c, sequence);
    forall i | 0 <= i < |f| ensures r[lo..lo+|f|][i] == f[i] {
      assert r[lo+i] == BodyByte(c, sequence, lo + i);
    }
  }

  lemma ParsedInvertsBody(c: SwitchConfig, sequence: Word)
    ensures Parsed(Encode(c, sequence)) == c
  {
    var r := Encode(c, sequence);
    IdentitySlices(c, sequence);
    NetworkSlices(c, sequence);
    Get32InvertsPut32(2);
    Get32InvertsPut32(c.rounds);
    assert r[8..12] == Put32(2) && r[130] == BodyByte(c, sequence, 130) && r[135] == BodyByte(c, sequence, 135);
  }

  lemma IdentitySlices(c: SwitchConfig, sequence: Word)
    ensures var r := Encode(c, sequence);
      && r[8..12] == Put32(2) && r[16..46] == c.mac && r[46..78] == c.username && r[78..94] == c.salt
      && r[94..126] == c.hash
  {
    Slice(c, sequence, 8, Put32(2));
    Slice(c, sequence, 16, c.mac);
    Slice(c, sequence, 46, c.username);
    Slice(c, sequence, 78, c.salt);
    Slice(c, sequence, 94, c.hash);
  }

  lemma NetworkSlices(c: SwitchConfig, sequence: Word)
    ensures var r := Encode(c, sequence);
      && r[126..130] == Put32(c.rounds) && r[131..135] == c.advertise
      && r[138..142] == c.ip && r[142..146] == c.netmask && r[146..150] == c.gateway
  {
    Slice(c, sequence, 126, Put32(c.rounds));
    Slice(c, sequence, 131, c.advertise);
    Slice(c, sequence, 138, c.ip);
    Slice(c, sequence, 142, c.netmask);
    Slice(c, sequence, 146, c.gateway);
  }

  /** Two valid configurations with the same record are the same. */
  lemma EncodeInjective(c: SwitchConfig, d: SwitchConfig, sequence: Word)
    requires Valid(c) && Valid(d) && Encode(c, sequence) == Encode(d, sequence)
    ensures c == d
  {
    DecodeInvertsEncode(c, sequence);
    DecodeInvertsEncode(d, sequence);
  }

  /** Replacing any one byte of a written record by any other value makes it unreadable. */
  lemma OneByteCorruptionDetected(c: SwitchConfig, sequence: Word, k: nat, x: Byte)
    requires k < RECORD_SIZE && Encode(c, sequence)[k] != x
    ensures Decode(Encode(c, sequence)[k := x]) == None
  {
    var r := Encode(c, sequence);
    var q := r[k := x];
    var w := if k < 4 then 0 else k - 3;
    EncodeFrame(c, sequence);
    if k < 248 {
      assert q[w..w+4][k-w] != r[w..w+4][k-w];
      BurstCorruptionDetected(c, sequence, q, w);
    } else if k < 252 {
      Get32InvertsPut32(Crc(r[..248]));
      assert q[..248] == r[..248];
      assert q[248..252][k-248] != r[248..252][k-248];
      Get32Injective(q[248..252], r[248..252]);
    } else {
      assert q[252..][k-252] != DONE[k-252];
    }
  }

  /** So does any change confined to four consecutive bytes of the checksummed part. */
  lemma BurstCorruptionDetected(c: SwitchConfig, sequence: Word, q: Bytes, w: nat)
    requires |q| == RECORD_SIZE && w + 4 <= BODY_SIZE
    requires var r := Encode(c, sequence); q[..w] == r[..w] && q[w..w+4] != r[w..w+4] && q[w+4..] == r[w+4..]
    ensures Decode(q) == None
  {
    var r := Encode(c, sequence);
    EncodeFrame(c, sequence);
    Get32InvertsPut32(Crc(r[..248]));
    TailSlice(q, r, w + 4, 248, 252);
    TailSlice(q, r, w + 4, w + 4, 248);
    WindowSplit(q, w);
    WindowSplit(r, w);
    BurstChangesFold(ALL_ONES, r[..w], r[w..w+4], q[w..w+4], r[w+4..248]);
  }

  lemma TailSlice(q: Bytes, r: Bytes, k: nat, lo: nat, hi: nat)
    requires k <= lo <= hi <= |q| && |q| == |r| && q[k..] == r[k..]
    ensures q[lo..hi] == r[lo..hi]
  {
    forall i | lo <= i < hi ensures q[i] == r[i] {
      assert q[i] == q[k..][i-k] && r[i] == r[k..][i-k];
    }
  }

  lemma WindowSplit(q: Bytes, w: nat)
    requires w + 4 <= BODY_SIZE <= |q|
    ensures q[..248] == q[..w] + q[w..w+4] + q[w+4..248]
  {}
}
