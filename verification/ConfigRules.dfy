/**
 What the configuration rules mean: addresses as prefix lengths, names as the loop of config_valid() reads
 them, the old record version, and which of the two slots a load takes. The numbers of the record format
 are written out.
*/
module ConfigRules {
  import opened Common
  import opened Bits
  import opened Config
  import opened ConfigStore

  // ----- addresses

  lemma {:induction false} AndCommutes(a: nat, b: nat)
    ensures And(a, b) == And(b, a)
  {
    if a > 0 && b > 0 { AndCommutes(a / 2, b / 2); }
  }

  lemma AndOdd(y: nat, m: nat)
    ensures And(y, 2 * m + 1) == y % 2 + 2 * And(y / 2, m)
  {
    assert (2 * m + 1) % 2 == 1 && (2 * m + 1) / 2 == m;
    if y == 0 { assert And(0, m) == 0; }
  }

  lemma {:induction false} AndLow(y: nat, h: nat)
    ensures And(y, Pow2(h) - 1) == y % Pow2(h)
  {
    if h == 0 {
      assert And(y, 0) == 0;
    } else {
      AndLow(y / 2, h - 1);
      LowStep(y, Pow2(h - 1), Pow2(h) - 1, y / 2 % Pow2(h - 1));
    }
  }

  lemma LowStep(y: nat, p: nat, m: nat, r: nat)
    requires p > 0 && m == 2 * (p - 1) + 1 && r == y / 2 % p == And(y / 2, p - 1)
    ensures And(y, m) == y % (2 * p)
  {
    assert And(y, m) == y % 2 + 2 * r by { AndOdd(y, p - 1); }
    assert y % (2 * p) == y % 2 + 2 * r by { HalveRemainder(y, p); }
  }

  lemma {:induction false} Exponent(a: nat) returns (h: nat)
    requires IsPowerOfTwo(a)
    ensures a == Pow2(h)
  {
    if a == 1 {
      h := 0;
    } else {
      h := Exponent(a / 2);
      h := h + 1;
    }
  }

  lemma {:induction false} PowIsPower(h: nat)
    ensures IsPowerOfTwo(Pow2(h))
  {
    if h > 0 {
      PowIsPower(h - 1);
      assert 2 * Pow2(h - 1) / 2 == Pow2(h - 1);
    }
  }

  lemma {:induction false} PowGrows(g: nat, h: nat)
    requires g < h
    ensures 2 * Pow2(g) <= Pow2(h)
    decreases h
  {
    if g < h - 1 { PowGrows(g, h - 1); }
  }

  /** An address of a subnet whose host part has h bits, other than the network's own and the broadcast. */
  predicate IsHost(p: Bytes, h: nat)
    requires |p| == 4
  {
    && p[0] != 0 && p[0] != 127 && p[0] < 224
    && 0 < Ip32(p) % Pow2(h) < Pow2(h) - 1
  }

  /** A static address as its prefix says: h host bits, from 2 to 31. */
  predicate InSubnet(c: SwitchConfig, h: nat) {
    && 2 <= h <= 31 && Ip32(c.netmask) == 0x1_0000_0000 - Pow2(h) && IsHost(c.ip, h)
    && (c.gateway != [0, 0, 0, 0] ==>
          && IsHost(c.gateway, h) && Ip32(c.gateway) / Pow2(h) == Ip32(c.ip) / Pow2(h) && c.gateway != c.ip)
  }

  lemma IpInjective(p: Bytes, q: Bytes)
    requires |p| == |q| == 4 && Ip32(p) == Ip32(q)
    ensures p == q
  {
    JoinInjective(p[3], p[2], p[1], p[0], q[3], q[2], q[1], q[0]);
  }

  lemma SameNetwork(x: nat, y: nat, a: nat)
    requires a > 0
    ensures x - x % a == y - y % a <==> x / a == y / a
  {
    assert x - x % a == a * (x / a) && y - y % a == a * (y / a);
    if x / a != y / a {
      MulSign(a, x / a - y / a);
      assert a * (x / a - y / a) == a * (x / a) - a * (y / a);
    }
  }

  lemma MaskedAt(y: nat, h: nat, n: nat)
    requires h <= n && y < Pow2(n)
    ensures Pow2(h) <= Pow2(n) && And(y, Pow2(n) - Pow2(h)) == y - y % Pow2(h)
  {
    PowIsPower(h);
    if h < n { PowGrows(h, n); }
    MaskRoundsDown(y, Pow2(h), n);
  }

  lemma Masked(y: Word, h: nat)
    requires h <= 32
    ensures Pow2(h) <= 0x1_0000_0000 && And(y, 0x1_0000_0000 - Pow2(h)) == y - y % Pow2(h)
  {
    PowersOfTwo();
    MaskedAt(y, h, 32);
  }

  lemma HostIff(p: Bytes, h: nat)
    requires |p| == 4 && h <= 31
    ensures Pow2(h) - 1 < 0x1_0000_0000 && (Unicast(p) && HostIn(Ip32(p), Pow2(h) - 1) <==> IsHost(p, h))
  {
    PowersOfTwo();
    PowGrows(h, 32);
    AndLow(Ip32(p), h);
  }

  lemma HostMask(h: nat)
    requires 2 <= h <= 31
    ensures 4 <= Pow2(h) < 0x1_0000_0000 && And(Pow2(h) - 1, Pow2(h)) == 0
  {
    PowersOfTwo();
    PowGrows(h, 32);
    if h > 2 { PowGrows(2, h); }
    assert Pow2(2) == 4;
    PowIsPower(h);
    PowerOfTwoIff(Pow2(h));
    AndCommutes(Pow2(h) - 1, Pow2(h));
  }

  lemma NetworkIff(x: Word, y: Word, h: nat)
    requires h <= 32
    ensures Pow2(h) <= 0x1_0000_0000
    ensures And(x, 0x1_0000_0000 - Pow2(h)) == And(y, 0x1_0000_0000 - Pow2(h)) <==> x / Pow2(h) == y / Pow2(h)
  {
    Masked(x, h);
    Masked(y, h);
    SameNetwork(x, y, Pow2(h));
  }

  lemma ZeroIff(p: Bytes)
    requires |p| == 4
    ensures Ip32(p) == 0 <==> p == [0, 0, 0, 0]
  {
    if Ip32(p) == 0 { IpInjective(p, [0, 0, 0, 0]); }
  }

  lemma SameIff(p: Bytes, q: Bytes)
    requires |p| == |q| == 4
    ensures Ip32(p) == Ip32(q) <==> p == q
  {
    if Ip32(p) == Ip32(q) { IpInjective(p, q); }
  }

  /** The tests on the gateway of an address, with a contiguous mask. */
  lemma GatewayIff(gateway: Bytes, ip: Bytes, mask: Word, h: nat)
    requires |gateway| == |ip| == 4 && 2 <= h <= 31 && mask == 0x1_0000_0000 - Pow2(h)
    ensures && (Ip32(gateway) == 0 <==> gateway == [0, 0, 0, 0]) && (Ip32(gateway) == Ip32(ip) <==> gateway == ip)
            && (And(Ip32(gateway), mask) == And(Ip32(ip), mask) <==> Ip32(gateway) / Pow2(h) == Ip32(ip) / Pow2(h))
  {
    ZeroIff(gateway);
    SameIff(gateway, ip);
    NetworkIff(Ip32(gateway), Ip32(ip), h);
  }

  /** With a contiguous mask the masked comparisons are those of the subnet. */
  lemma MaskedIsSubnet(c: SwitchConfig, h: nat)
    requires 2 <= h <= 31 && Ip32(c.netmask) == 0x1_0000_0000 - Pow2(h)
    ensures StaticAddressValid(c) <==> InSubnet(c, h)
  {
    HostMask(h);
    HostIff(c.ip, h);
    HostIff(c.gateway, h);
    GatewayIff(c.gateway, c.ip, Ip32(c.netmask), h);
  }

  lemma ContiguousMask(c: SwitchConfig) returns (h: nat)
    requires StaticAddressValid(c)
    ensures 2 <= h <= 31 && Ip32(c.netmask) == 0x1_0000_0000 - Pow2(h)
  {
    var a := 0x1_0000_0000 - Ip32(c.netmask);
    AndCommutes(a - 1, a);
    PowerOfTwoIff(a);
    h := Exponent(a);
    PowersOfTwo();
    assert Pow2(0) == 1 && Pow2(1) == 2;
    if h > 32 { PowGrows(32, h); }
  }

  /** The mask tests of the source accept exactly the addresses of some subnet with 2 to 31 host bits. */
  lemma StaticIff(c: SwitchConfig)
    ensures StaticAddressValid(c) <==> exists h :: InSubnet(c, h)
  {
    if StaticAddressValid(c) {
      var h := ContiguousMask(c);
      MaskedIsSubnet(c, h);
    }
    if h :| InSubnet(c, h) {
      MaskedIsSubnet(c, h);
    }
  }

  // ----- the other fields

  /** A user name: 1 to 31 letters, digits, underscores, hyphens or dots, then a zero byte. */
  predicate IsName(name: Bytes, n: nat) {
    && 1 <= n <= 31 < |name| && name[n] == 0
    && forall i :: 0 <= i < n ==>
         || 'a' as int <= name[i] <= 'z' as int || 'A' as int <= name[i] <= 'Z' as int
         || '0' as int <= name[i] <= '9' as int
         || name[i] == '_' as int || name[i] == '-' as int || name[i] == '.' as int
  }

  function BoardMac(i: nat): Bytes
    requires i < 5
  {
    [0, 0x0a, 0x35, 0x0f, 0x37, 0x45 + i]
  }

  /** The addresses of the five ports are this board's own. */
  predicate IsBoard(mac: Bytes) {
    |mac| == 30 && forall i, j :: 0 <= i < 5 && 0 <= j < 6 ==> mac[6 * i + j] == BoardMac(i)[j]
  }

  lemma FactoryAt(i: nat, j: nat)
    requires i < 5 && j < 6
    ensures FactoryMacs()[6 * i + j] == BoardMac(i)[j]
  {
    assert (6 * i + j) / 6 == i && (6 * i + j) % 6 == j;
  }

  lemma BoardIff(mac: Bytes)
    ensures mac == FactoryMacs() <==> IsBoard(mac)
  {
    forall i, j | 0 <= i < 5 && 0 <= j < 6 ensures FactoryMacs()[6 * i + j] == BoardMac(i)[j] {
      FactoryAt(i, j);
    }
    if IsBoard(mac) {
      forall k | 0 <= k < 30 ensures mac[k] == FactoryMacs()[k] {
        assert mac[6 * (k / 6) + k % 6] == BoardMac(k / 6)[k % 6];
      }
    }
  }

  lemma NameIff(name: Bytes)
    requires |name| == 32
    ensures (exists n: nat :: 0 < n < 32 && NameEndsAt(name, n)) <==> exists n: nat :: IsName(name, n)
  {
    if n: nat :| 0 < n < 32 && NameEndsAt(name, n) {
      assert IsName(name, n);
    }
    if n: nat :| IsName(name, n) {
      assert NameEndsAt(name, n);
    }
  }

  ghost predicate Named(c: SwitchConfig) { exists n: nat :: IsName(c.username, n) }

  ghost predicate Addressed(c: SwitchConfig) { c.dhcp || exists h :: InSubnet(c, h) }

  /** The fields with a fixed range. */
  predicate InRange(c: SwitchConfig) {
    && c.rounds == 100000 && c.admin <= 31 && c.stpVersion in {0, 2} && c.sfpSpeed in {0, 1000, 2500, 5000, 10000}
    && c.advertise[0] == 4 && forall i :: 1 <= i < 4 ==> 1 <= c.advertise[i] <= 7
  }

  lemma ValidMeans(c: SwitchConfig)
    requires Valid(c)
    ensures IsBoard(c.mac) && Named(c) && InRange(c) && Addressed(c)
  {
    BoardIff(c.mac);
    NameIff(c.username);
    if !c.dhcp { StaticIff(c); }
  }

  lemma MeansValid(c: SwitchConfig)
    requires IsBoard(c.mac) && Named(c) && InRange(c) && Addressed(c)
    ensures Valid(c)
  {
    BoardIff(c.mac);
    NameIff(c.username);
    if !c.dhcp { StaticIff(c); }
  }

  /** Exactly the configurations that a save accepts. */
  lemma ValidIff(c: SwitchConfig)
    ensures Valid(c) <==> IsBoard(c.mac) && Named(c) && InRange(c) && Addressed(c)
  {
    if Valid(c) {
      ValidMeans(c);
    } else if IsBoard(c.mac) && Named(c) && InRange(c) && Addressed(c) {
      MeansValid(c);
    }
  }

  /** The tests of config_valid() in their order, with its loop over the user name. */
  method ConfigValid(c: SwitchConfig) returns (ok: bool)
    ensures ok == Valid(c)
  {
    if c.stpVersion != 0 && c.stpVersion != 2 { return false; }
    if c.mac != FactoryMacs() || c.admin > 31 || c.advertise[0] != 4 || c.rounds != ROUNDS { return false; }
    var n := 0;
    while n < 32 && c.username[n] != 0
      invariant 0 <= n <= 32 && forall i :: 0 <= i < n ==> c.username[i] != 0 && NameChar(c.username[i])
    {
      if !NameChar(c.username[n]) { return false; }
      n := n + 1;
    }
    if n == 0 || n == 32 { return false; }
    assert NameEndsAt(c.username, n);
    for i := 1 to 4
      invariant forall k :: 1 <= k < i ==> 1 <= c.advertise[k] <= 7
    {
      if c.advertise[i] == 0 || c.advertise[i] > 7 { return false; }
    }
    if c.sfpSpeed !in {0, 1000, 2500, 5000, 10000} { return false; }
    ok := c.dhcp || StaticAddressValid(c);
  }

  lemma DefaultsAreValid()
    ensures Valid(Defaults()) && Defaults().dhcp && Defaults().admin == 31 && !Defaults().stpEnabled
    ensures IsName(Defaults().username, 5) && Defaults().username[..5] == [97, 100, 109, 105, 110]
  {
    BoardIff(Defaults().mac);
    assert IsName(Defaults().username, 5);
    MeansValid(Defaults());
  }

  // ----- records

  /** Only a complete record of version 1 or 2 is read. */
  lemma DecodeRequires(r: Bytes)
    requires |r| == 256 && Decode(r).Some?
    ensures r[..8] == [0x4b, 0x52, 0x32, 0x36, 0x30, 0x43, 0x46, 0x47] && r[252..] == [0x44, 0x4f, 0x4e, 0x45]
    ensures r[8..12] == [1, 0, 0, 0] || r[8..12] == [2, 0, 0, 0]
    ensures r[248..252] == Put32(Crc(r[..248])) && r[137] <= 1 && Valid(Decode(r).value.0)
    ensures r[8..12] == [2, 0, 0, 0] ==> r[150] <= 1
  {
    if Get32(r[8..12]) == 1 { Get32Injective(r[8..12], [1, 0, 0, 0]); }
    if Get32(r[8..12]) == 2 { Get32Injective(r[8..12], [2, 0, 0, 0]); }
    Get32InvertsPut32(Crc(r[..248]));
    Get32Injective(r[248..252], Put32(Crc(r[..248])));
  }

  /** Where everything is in a record of the current version. */
  lemma RecordLayout(c: SwitchConfig, sequence: Word)
    ensures var r := Encode(c, sequence);
      && |r| == 256 && r[..8] == [0x4b, 0x52, 0x32, 0x36, 0x30, 0x43, 0x46, 0x47] && r[8..12] == [2, 0, 0, 0]
      && r[12..16] == Put32(sequence) && r[16..46] == c.mac && r[46..78] == c.username && r[78..94] == c.salt
      && r[94..126] == c.hash && r[126..130] == Put32(c.rounds) && r[130] == c.admin && r[131..135] == c.advertise
      && r[135] == c.sfpSpeed % 256 && r[136] == c.sfpSpeed / 256 && r[137] == (if c.dhcp then 1 else 0)
      && r[138..142] == c.ip && r[142..146] == c.netmask && r[146..150] == c.gateway
      && r[150] == (if c.stpEnabled then 1 else 0) && r[151] == c.stpVersion
      && (forall i :: 152 <= i < 248 ==> r[i] == 0)
      && r[248..252] == Put32(Crc(r[..248])) && r[252..] == [0x44, 0x4f, 0x4e, 0x45]
  {
    EncodeFrame(c, sequence);
    IdentitySlices(c, sequence);
    NetworkSlices(c, sequence);
    var r, b := Encode(c, sequence), Body(c, sequence);
    forall i | 0 <= i < 248 ensures r[i] == b[i] {}
    assert Put32(2) == [2, 0, 0, 0];
  }

  /** The body of a version 1 record: no spanning tree fields, whatever their bytes are. */
  function OldBody(c: SwitchConfig, sequence: Word, x: Byte, y: Byte): (b: Bytes)
    ensures |b| == 248
  {
    Body(c, sequence)[8 := 1][150 := x][151 := y]
  }

  function OldRecord(c: SwitchConfig, sequence: Word, x: Byte, y: Byte): (r: Bytes)
    ensures |r| == 256
  {
    OldBody(c, sequence, x, y) + Put32(Crc(OldBody(c, sequence, x, y))) + [0x44, 0x4f, 0x4e, 0x45]
  }

  /** A version 1 record is read with spanning tree off and its version 2. */
  lemma OldRecordMigrates(c: SwitchConfig, sequence: Word, x: Byte, y: Byte)
    requires Valid(c.(stpEnabled := false, stpVersion := 2))
    ensures Decode(OldRecord(c, sequence, x, y)) == Some((c.(stpEnabled := false, stpVersion := 2), sequence))
  {
    var body, r := OldBody(c, sequence, x, y), OldRecord(c, sequence, x, y);
    assert r[..248] == body && r[248..252] == Put32(Crc(body)) && r[252..] == DONE;
    Get32InvertsPut32(Crc(body));
    OldParsed(c, sequence, x, y);
  }

  lemma OldParsed(c: SwitchConfig, sequence: Word, x: Byte, y: Byte)
    ensures var r := OldRecord(c, sequence, x, y);
      && KnownHeader(r) && Get32(r[8..12]) == 1 && Get32(r[12..16]) == sequence && r[137] <= 1
      && Parsed(r) == c.(stpEnabled := false, stpVersion := 2)
  {
    OldSlices(c, sequence, x, y);
    assert Get32([1, 0, 0, 0]) == 1;
    Get32InvertsPut32(sequence);
    Get32InvertsPut32(c.rounds);
    assert Join(c.sfpSpeed % 256, c.sfpSpeed / 256, 0, 0) == c.sfpSpeed;
  }

  /** Apart from the version, an old record has its fields where a new one has them. */
  lemma OldSame(c: SwitchConfig, sequence: Word, x: Byte, y: Byte, lo: nat, hi: nat)
    requires lo <= hi <= 8 || 12 <= lo <= hi <= 150
    ensures OldRecord(c, sequence, x, y)[lo..hi] == Encode(c, sequence)[lo..hi]
  {
    var r, e := OldRecord(c, sequence, x, y), Encode(c, sequence);
    forall i | lo <= i < hi ensures r[i] == e[i] {
      assert r[i] == Body(c, sequence)[i];
    }
  }

  lemma OldSlices(c: SwitchConfig, sequence: Word, x: Byte, y: Byte)
    ensures var r := OldRecord(c, sequence, x, y);
      && r[..8] == MAGIC && r[8..12] == [1, 0, 0, 0] && r[12..16] == Put32(sequence)
      && r[16..46] == c.mac && r[46..78] == c.username && r[78..94] == c.salt && r[94..126] == c.hash
      && r[126..130] == Put32(c.rounds) && r[130] == c.admin && r[131..135] == c.advertise
      && r[135] == c.sfpSpeed % 256 && r[136] == c.sfpSpeed / 256 && r[137] == Flag(c.dhcp)
      && r[138..142] == c.ip && r[142..146] == c.netmask && r[146..150] == c.gateway
  {
    EncodeFrame(c, sequence);
    IdentitySlices(c, sequence);
    NetworkSlices(c, sequence);
    OldSame(c, sequence, x, y, 0, 8);
    OldSame(c, sequence, x, y, 12, 16);
    OldSame(c, sequence, x, y, 16, 46);
    OldSame(c, sequence, x, y, 46, 78);
    OldSame(c, sequence, x, y, 78, 94);
    OldSame(c, sequence, x, y, 94, 126);
    OldSame(c, sequence, x, y, 126, 130);
    OldSame(c, sequence, x, y, 131, 135);
    OldSame(c, sequence, x, y, 138, 142);
    OldSame(c, sequence, x, y, 142, 146);
    OldSame(c, sequence, x, y, 146, 150);
    var r, b := OldRecord(c, sequence, x, y), Body(c, sequence);
    assert r[130] == b[130] && r[135] == b[135] && r[136] == b[136] && r[137] == b[137];
    assert r[8..12] == [r[8], r[9], r[10], r[11]];
  }

  // ----- loading

  /** The content of a slot that could be read. */
  function Content(r: Slot, ok: bool): Option<(SwitchConfig, Word)> {
    if ok then Decode(r) else None
  }

  /** One sequence number is ahead of another by 1 to 2^31 - 1, modulo 2^32. */
  predicate Ahead(a: int, b: int) { 1 <= (a - b) % 0x1_0000_0000 <= 0x7fff_ffff }

  /** What config_load() takes from two slots, each read or not: the newer of the readable records, the
      first on a tie, and the defaults without any. A slot that cannot be read, or holds something else
      than a record and is not blank, makes the store read-only. */
  lemma LoadTakes(m: Slots, ok0: bool, ok1: bool)
    ensures var s, a, b := Load(m, ok0, ok1), Content(m[0], ok0), Content(m[1], ok1);
      && (a.None? && b.None? ==> s.value == Defaults() && s.slot == -1 && s.sequence == 0 && !s.saved)
      && (a.Some? && (b.None? || !Ahead(b.value.1, a.value.1)) ==>
            (s.value, s.sequence) == a.value && s.slot == 0 && s.saved)
      && (b.Some? && (a.None? || Ahead(b.value.1, a.value.1)) ==>
            (s.value, s.sequence) == b.value && s.slot == 1 && s.saved)
      && (s.writable <==> ok0 && ok1 && !Strange(m[0]) && !Strange(m[1]))
  {
    StrangeIff(m[0]);
    StrangeIff(m[1]);
  }

  /** Neither blank nor headed as a record of version 1 or 2. */
  predicate Strange(r: Slot) {
    && (exists i :: 0 <= i < |r| && r[i] != 255)
    && !(r[..8] == [0x4b, 0x52, 0x32, 0x36, 0x30, 0x43, 0x46, 0x47] && r[9] == r[10] == r[11] == 0 && r[8] in {1, 2})
  }

  lemma StrangeIff(r: Slot)
    ensures Foreign(r) <==> Strange(r)
  {
    assert r == BlankSlot() <==> forall i :: 0 <= i < |r| ==> r[i] == 255;
    var v := r[8..12];
    if Get32(v) == 1 { Get32Injective(v, [1, 0, 0, 0]); }
    if Get32(v) == 2 { Get32Injective(v, [2, 0, 0, 0]); }
  }
}
