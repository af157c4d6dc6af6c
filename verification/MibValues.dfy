/**
 What a manager finds in the built table, name by name and value by value, as the object map of the
 documentation lists them. Names and tags are written out here and nowhere taken from the builder.
*/
module MibValues {
  import opened Common
  import opened Ber
  import opened SnmpMib
  import opened MibBuild

  /** The project's part of the tree, 1.3.6.1.4.1.32473.1, and a name below it. */
  function B(tail: seq<nat>): seq<nat> { [1, 3, 6, 1, 4, 1, 32473, 1] + tail }

  /** The table has an object of this name, and it holds this number under this tag. */
  ghost predicate Shows(m: Mib, name: seq<nat>, tag: nat, number: nat) {
    exists x :: x in m && x.oid == name && x.tag == tag && x.number == number
  }

  ghost predicate ShowsText(m: Mib, name: seq<nat>, text: string) {
    exists x :: x in m && x.oid == name && x.tag == 4 && x.text == Ascii(text)
  }

  // ----- the groups

  ghost predicate ShowsSystem(m: Mib, uptime: Word) {
    && ShowsText(m, [1, 3, 6, 1, 2, 1, 1, 1, 0], "KR260 open Ethernet switch; R5 FreeRTOS")
    && Shows(m, [1, 3, 6, 1, 2, 1, 1, 2, 0], 6, 0)
    && Shows(m, [1, 3, 6, 1, 2, 1, 1, 3, 0], 0x43, uptime)
    && ShowsText(m, [1, 3, 6, 1, 2, 1, 1, 5, 0], "kr260-switch")
  }

  /** Availability, capabilities, polls, late polls, saturated reads, time-outs, age, frequency and build. */
  ghost predicate ShowsHealth(m: Mib, s: Statistics, now: Long, hz: Word, ddr: bool, debug: bool)
    requires |s.health| == 10
  {
    && Shows(m, B([1, 1, 0]), 2, if s.available then 1 else 2)
    && Shows(m, B([1, 2, 0]), 0x42, s.health[0])
    && (forall i :: 1 <= i < 5 ==> Shows(m, B([1, i + 2, 0]), 0x41, s.health[i]))
    && Shows(m, B([1, 7, 0]), 0x42, Age(now, s.timestamp, hz))
    && Shows(m, B([1, 8, 0]), 0x42, hz)
    && Shows(m, B([1, 9, 0]), 0x42, if ddr then (if debug then 7 else 3) else if debug then 5 else 1)
    && (forall i :: 5 <= i < 7 ==> Shows(m, B([1, i + 5, 0]), 0x41, s.health[i]))
    && (forall i :: 7 <= i < 10 ==> Shows(m, B([1, i + 5, 0]), 0x42, s.health[i]))
    && Shows(m, B([1, 15, 0]), 0x42, s.fabricHz)
  }

  /** Name, link (up 1, down 2), the eight counters, the speed and the advertised abilities of each port. */
  ghost predicate ShowsPorts(m: Mib, s: Statistics, links: Word, p: PortState)
    requires |s.port| == 6 && (forall i :: 0 <= i < 6 ==> |s.port[i]| == 8) && PortsShaped(p)
  {
    && (forall r :: 0 <= r < 6 ==> ShowsText(m, B([2, 1, 1, r + 1]), PORT_NAMES[r]))
    && (forall r :: 0 <= r < 6 ==> Shows(m, B([2, 1, 2, r + 1]), 2, if Linked(links, r) then 1 else 2))
    && (forall r, c :: 0 <= r < 6 && 0 <= c < 8 ==> Shows(m, B([2, 1, c + 3, r + 1]), 0x46, s.port[r][c]))
    && (forall r :: 0 <= r < 6 ==> Shows(m, B([2, 1, 12, r + 1]), 0x42, p.speed[r]))
    && (forall r :: 0 <= r < 4 ==> Shows(m, B([2, 1, 13, r + 1]), 0x42, p.advertise[r]))
    && Shows(m, B([2, 1, 13, 5]), 0x42, 0) && Shows(m, B([2, 1, 13, 6]), 0x42, 0)
  }

  /** Bit r of the link mask. */
  predicate Linked(links: nat, r: nat) {
    match r
    case 0 => links % 2 == 1
    case 1 => links / 2 % 2 == 1
    case 2 => links / 4 % 2 == 1
    case 3 => links / 8 % 2 == 1
    case 4 => links / 16 % 2 == 1
    case _ => links / 32 % 2 == 1
  }

  ghost predicate ShowsDdr(m: Mib, s: Statistics)
    requires |s.ddr| == 4 && (forall i :: 0 <= i < 4 ==> |s.ddr[i]| == 8)
  {
    && (forall r :: 0 <= r < 4 ==> ShowsText(m, B([3, 1, 1, r + 1]), DDR_NAMES[r]))
    && (forall r, c :: 0 <= r < 4 && 0 <= c < 8 ==>
          Shows(m, B([3, 1, c + 2, r + 1]), if c == 3 then 0x42 else 0x46, s.ddr[r][c]))
  }

  ghost predicate ShowsDebug(m: Mib, s: Statistics)
    requires |s.debug| == 16
  {
    && (forall r :: 0 <= r < 16 ==> ShowsText(m, B([4, 1, 1, r + 1]), DEBUG_NAMES[r]))
    && (forall r :: 0 <= r < 16 ==> Shows(m, B([4, 1, 2, r + 1]), 0x46, s.debug[r]))
  }

  /** Temperatures and the current are signed, as 64-bit two's complement. */
  ghost predicate ShowsSensors(m: Mib, v: Sensors, now: Long, hz: Word)
    requires |v.temperature| == 2 && |v.voltage| == 6
  {
    && Shows(m, B([5, 1, 0]), 0x42, v.valid) && Shows(m, B([5, 2, 0]), 0x41, v.errors)
    && Shows(m, B([5, 3, 0]), 0x42, Age(now, v.timestamp, hz))
    && (forall i :: 0 <= i < 2 ==> Shows(m, B([5, i + 4, 0]), 2, Complement(v.temperature[i])))
    && (forall i :: 0 <= i < 6 ==> Shows(m, B([5, i + 6, 0]), 0x42, v.voltage[i]))
    && Shows(m, B([5, 12, 0]), 2, Complement(v.current))
    && Shows(m, B([5, 13, 0]), 0x42, v.supply) && Shows(m, B([5, 14, 0]), 0x42, v.power)
  }

  function Complement(v: Signed32): nat { v % 0x1_0000_0000_0000_0000 }

  ghost predicate ShowsTimeouts(m: Mib, s: Statistics, ddr: bool, debug: bool)
    requires |s.releaseBy| == 13 && |s.responseBy| == 13
    requires forall i :: 0 <= i < 13 ==> |s.releaseBy[i]| == 16 && |s.responseBy[i]| == 16
  {
    forall b, i :: 0 <= b < 13 && 0 <= i < (if b < 4 then 4 else if b < 12 then 8 else 16)
                   && (b < 8 || (b < 12 && ddr) || (b == 12 && debug)) ==>
      && Shows(m, B([6, 1, 1, b, i]), 0x41, s.releaseBy[b][i])
      && Shows(m, B([6, 1, 2, b, i]), 0x41, s.responseBy[b][i])
  }

  ghost predicate ShowsBanks(m: Mib, s: Statistics, now: Long, hz: Word)
    requires |s.bank| == 13
  {
    forall b :: 0 <= b < 13 ==> ShowsBank(m, s.bank[b], now, hz, b + 1)
  }

  ghost predicate ShowsBank(m: Mib, h: BankHealth, now: Long, hz: Word, row: nat) {
    && Shows(m, B([7, 1, 1, row]), 0x42, h.state) && Shows(m, B([7, 1, 2, row]), 0x42, Age(now, h.lastSuccess, hz))
    && Shows(m, B([7, 1, 3, row]), 0x41, h.unavailable) && Shows(m, B([7, 1, 4, row]), 0x41, h.timeouts)
    && Shows(m, B([7, 1, 5, row]), 0x42, h.status)
  }

  /** The whole object map of a build. */
  ghost predicate Shown(m: Mib, s: Statistics, v: Sensors, p: PortState, now: Long, hz: Word, uptime: Word,
                        links: Word, ddr: bool, debug: bool)
    requires Shaped(s, v) && PortsShaped(p)
  {
    && ShowsSystem(m, uptime) && ShowsHealth(m, s, now, hz, ddr, debug) && ShowsPorts(m, s, links, p)
    && (ddr ==> ShowsDdr(m, s)) && (debug ==> ShowsDebug(m, s)) && ShowsSensors(m, v, now, hz)
    && ShowsTimeouts(m, s, ddr, debug) && ShowsBanks(m, s, now, hz)
  }

  // ----- the built table shows them

  lemma SystemShown(m: Mib, uptime: Word)
    requires SystemObjects(uptime) <= m
    ensures ShowsSystem(m, uptime)
  {
    var xs := SystemObjects(uptime);
    assert xs[0] in m && xs[1] in m && xs[2] in m && xs[3] in m;
  }

  lemma ScalarName(g: nat, c: nat)
    requires g == 1 || g == 5
    ensures B([g, c, 0]) == Name(g, c, 0)
  {}

  lemma TableName(g: nat, c: nat, r: nat)
    requires 2 <= g <= 4 || g == 6 || g == 7
    ensures B([g, 1, c, r]) == Name(g, c, r)
  {}

  lemma HealthAt(m: Mib, s: Statistics, now: Long, hz: Word, ddr: bool, debug: bool, i: nat, tag: nat, n: nat)
    requires |s.health| == 10 && i < 15 && HealthObject(s, now, hz, ddr, debug, i) in m
    requires HealthObject(s, now, hz, ddr, debug, i).tag == tag && HealthValue(s, now, hz, ddr, debug, i) == n
    ensures Shows(m, B([1, i + 1, 0]), tag, n)
  {
    ScalarName(1, i + 1);
  }

  lemma HealthShown(m: Mib, s: Statistics, now: Long, hz: Word, ddr: bool, debug: bool)
    requires |s.health| == 10 && forall i :: 0 <= i < 15 ==> HealthObject(s, now, hz, ddr, debug, i) in m
    ensures ShowsHealth(m, s, now, hz, ddr, debug)
  {
    HealthAt(m, s, now, hz, ddr, debug, 0, 2, if s.available then 1 else 2);
    HealthAt(m, s, now, hz, ddr, debug, 1, 0x42, s.health[0]);
    forall i | 1 <= i < 5 ensures Shows(m, B([1, i + 2, 0]), 0x41, s.health[i]) {
      HealthAt(m, s, now, hz, ddr, debug, i + 1, 0x41, s.health[i]);
    }
    HealthAt(m, s, now, hz, ddr, debug, 6, 0x42, Age(now, s.timestamp, hz));
    HealthAt(m, s, now, hz, ddr, debug, 7, 0x42, hz);
    HealthAt(m, s, now, hz, ddr, debug, 8, 0x42, if ddr then (if debug then 7 else 3) else if debug then 5 else 1);
    forall i | 5 <= i < 7 ensures Shows(m, B([1, i + 5, 0]), 0x41, s.health[i]) {
      HealthAt(m, s, now, hz, ddr, debug, i + 4, 0x41, s.health[i]);
    }
    forall i | 7 <= i < 10 ensures Shows(m, B([1, i + 5, 0]), 0x42, s.health[i]) {
      HealthAt(m, s, now, hz, ddr, debug, i + 4, 0x42, s.health[i]);
    }
    HealthAt(m, s, now, hz, ddr, debug, 14, 0x42, s.fabricHz);
  }

  lemma PortsShown(m: Mib, s: Statistics, links: Word, p: PortState)
    requires |s.port| == 6 && (forall i :: 0 <= i < 6 ==> |s.port[i]| == 8) && PortsShaped(p)
    requires forall col, row :: 1 <= col <= 13 && col != 11 && 0 <= row < 6 ==> PortObject(s, links, p, col, row) in m
    ensures ShowsPorts(m, s, links, p)
  {
    forall col, row | 1 <= col <= 13 && col != 11 && 0 <= row < 6
      ensures PortObject(s, links, p, col, row) in m
              && PortObject(s, links, p, col, row).oid == B([2, 1, col, row + 1])
    {
      TableName(2, col, row + 1);
    }
    forall r | 0 <= r < 6 ensures Bit(links, r) == 1 <==> Linked(links, r) {}
    forall r, c | 0 <= r < 6 && 0 <= c < 8 ensures Shows(m, B([2, 1, c + 3, r + 1]), 0x46, s.port[r][c]) {
      assert PortObject(s, links, p, c + 3, r) in m;
    }
    forall r | 0 <= r < 6
      ensures ShowsText(m, B([2, 1, 1, r + 1]), PORT_NAMES[r])
      ensures Shows(m, B([2, 1, 2, r + 1]), 2, if Linked(links, r) then 1 else 2)
      ensures Shows(m, B([2, 1, 12, r + 1]), 0x42, p.speed[r])
      ensures Shows(m, B([2, 1, 13, r + 1]), 0x42, if r < 4 then p.advertise[r] else 0)
    {
      assert PortObject(s, links, p, 1, r) in m && PortObject(s, links, p, 2, r) in m;
      assert PortObject(s, links, p, 12, r) in m && PortObject(s, links, p, 13, r) in m;
    }
    assert PortObject(s, links, p, 13, 4) in m && PortObject(s, links, p, 13, 5) in m;
  }

  lemma DdrShown(m: Mib, s: Statistics)
    requires |s.ddr| == 4 && (forall i :: 0 <= i < 4 ==> |s.ddr[i]| == 8)
    requires forall col, row :: 1 <= col <= 9 && 0 <= row < 4 ==> DdrObject(s, col, row) in m
    ensures ShowsDdr(m, s)
  {
    forall r | 0 <= r < 4 ensures ShowsText(m, B([3, 1, 1, r + 1]), DDR_NAMES[r]) {
      TableName(3, 1, r + 1);
      assert DdrObject(s, 1, r) in m;
    }
    forall r, c | 0 <= r < 4 && 0 <= c < 8
      ensures Shows(m, B([3, 1, c + 2, r + 1]), if c == 3 then 0x42 else 0x46, s.ddr[r][c])
    {
      TableName(3, c + 2, r + 1);
      assert DdrObject(s, c + 2, r) in m;
    }
  }

  lemma DebugShown(m: Mib, s: Statistics)
    requires |s.debug| == 16 && forall col, row :: 1 <= col <= 2 && 0 <= row < 16 ==> DebugObject(s, col, row) in m
    ensures ShowsDebug(m, s)
  {
    forall r | 0 <= r < 16
      ensures ShowsText(m, B([4, 1, 1, r + 1]), DEBUG_NAMES[r]) && Shows(m, B([4, 1, 2, r + 1]), 0x46, s.debug[r])
    {
      TableName(4, 1, r + 1);
      TableName(4, 2, r + 1);
      assert DebugObject(s, 1, r) in m && DebugObject(s, 2, r) in m;
    }
  }

  lemma SensorAt(m: Mib, v: Sensors, now: Long, hz: Word, i: nat, tag: nat, n: nat)
    requires |v.temperature| == 2 && |v.voltage| == 6 && i < 14 && SensorObject(v, now, hz, i) in m
    requires SensorObject(v, now, hz, i).tag == tag && SensorValue(v, now, hz, i) == n
    ensures Shows(m, B([5, i + 1, 0]), tag, n)
  {
    ScalarName(5, i + 1);
  }

  lemma SensorsShown(m: Mib, v: Sensors, now: Long, hz: Word)
    requires |v.temperature| == 2 && |v.voltage| == 6
    requires forall i :: 0 <= i < 14 ==> SensorObject(v, now, hz, i) in m
    ensures ShowsSensors(m, v, now, hz)
  {
    SensorAt(m, v, now, hz, 0, 0x42, v.valid);
    SensorAt(m, v, now, hz, 1, 0x41, v.errors);
    SensorAt(m, v, now, hz, 2, 0x42, Age(now, v.timestamp, hz));
    forall i | 0 <= i < 2 ensures Shows(m, B([5, i + 4, 0]), 2, Complement(v.temperature[i])) {
      SensorAt(m, v, now, hz, i + 3, 2, Complement(v.temperature[i]));
    }
    forall i | 0 <= i < 6 ensures Shows(m, B([5, i + 6, 0]), 0x42, v.voltage[i]) {
      SensorAt(m, v, now, hz, i + 5, 0x42, v.voltage[i]);
    }
    SensorAt(m, v, now, hz, 11, 2, Complement(v.current));
    SensorAt(m, v, now, hz, 12, 0x42, v.supply);
    SensorAt(m, v, now, hz, 13, 0x42, v.power);
  }

  lemma TimeoutsShown(m: Mib, s: Statistics, ddr: bool, debug: bool)
    requires |s.releaseBy| == 13 && |s.responseBy| == 13
    requires forall i :: 0 <= i < 13 ==> |s.releaseBy[i]| == 16 && |s.responseBy[i]| == 16
    requires forall col, bank, slot ::
               1 <= col <= 2 && 0 <= bank < 13 && BankEnabled(bank, ddr, debug) && 0 <= slot < BankSlots(bank) ==>
               TimeoutObject(s, col, bank, slot) in m
    ensures ShowsTimeouts(m, s, ddr, debug)
  {
    forall b, i | 0 <= b < 13 && 0 <= i < (if b < 4 then 4 else if b < 12 then 8 else 16)
                  && (b < 8 || (b < 12 && ddr) || (b == 12 && debug))
      ensures Shows(m, B([6, 1, 1, b, i]), 0x41, s.releaseBy[b][i])
      ensures Shows(m, B([6, 1, 2, b, i]), 0x41, s.responseBy[b][i])
    {
      assert BankEnabled(b, ddr, debug) && i < BankSlots(b);
      assert TimeoutObject(s, 1, b, i) in m && TimeoutObject(s, 2, b, i) in m;
      assert B([6, 1, 1, b, i]) == Name(6, 1, b) + [i] && B([6, 1, 2, b, i]) == Name(6, 2, b) + [i];
    }
  }

  lemma BanksShown(m: Mib, s: Statistics, now: Long, hz: Word)
    requires |s.bank| == 13
    requires forall col, b :: 1 <= col <= 5 && 0 <= b < 13 ==> BankObject(s, now, hz, col, b) in m
    ensures ShowsBanks(m, s, now, hz)
  {
    forall b | 0 <= b < 13 ensures ShowsBank(m, s.bank[b], now, hz, b + 1) {
      forall col | 1 <= col <= 5
        ensures BankObject(s, now, hz, col, b) in m && BankObject(s, now, hz, col, b).oid == B([7, 1, col, b + 1])
      {
        TableName(7, col, b + 1);
      }
      assert BankObject(s, now, hz, 1, b) in m && BankObject(s, now, hz, 2, b) in m;
      assert BankObject(s, now, hz, 3, b) in m && BankObject(s, now, hz, 4, b) in m;
      assert BankObject(s, now, hz, 5, b) in m;
    }
  }

  /** snmp_mib_build() and the object map: what every name of a build reads. */
  method BuildTable(b: Builder, s: Statistics, v: Sensors, p: PortState, now: Long, hz: Word, uptime: Word,
                    links: Word, ddr: bool, debug: bool)
    requires Shaped(s, v) && PortsShaped(p)
    modifies b
    ensures Sorted(b.objects) && |b.objects| <= 448 && Shown(b.objects, s, v, p, now, hz, uptime, links, ddr, debug)
  {
    b.Build(s, v, p, now, hz, uptime, links, ddr, debug);
    SystemShown(b.objects, uptime);
    HealthShown(b.objects, s, now, hz, ddr, debug);
    PortsShown(b.objects, s, links, p);
    if ddr { DdrShown(b.objects, s); }
    if debug { DebugShown(b.objects, s); }
    SensorsShown(b.objects, v, now, hz);
    TimeoutsShown(b.objects, s, ddr, debug);
    BanksShown(b.objects, s, now, hz);
  }
}
