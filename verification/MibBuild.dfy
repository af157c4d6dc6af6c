/**
 snmp_mib_build(): the object table of the switch, built by appending in nested loops for any
 statistics and sensor snapshot and each of the four counter builds.
*/
module MibBuild {
  import opened Common
  import opened Ber
  import opened SnmpMib

  const OBJECT_MAX: nat := 448
  const INTEGER: Byte := 0x02
  const STRING: Byte := 0x04
  const OBJECT_ID: Byte := 0x06
  const COUNTER: Byte := 0x41
  const GAUGE: Byte := 0x42
  const TICKS: Byte := 0x43
  const COUNTER64: Byte := 0x46
  const NEVER: nat := 0xffff_ffff

  type Word = x: int | 0 <= x < 0x1_0000_0000
  type Long = x: int | 0 <= x < 0x1_0000_0000_0000_0000
  type Signed32 = x: int | -0x8000_0000 <= x < 0x8000_0000

  datatype BankHealth = BankHealth(state: Word, lastSuccess: Long, unavailable: Word, timeouts: Word, status: Word)

  datatype Statistics = Statistics(
    available: bool, health: seq<Word>, timestamp: Long, fabricHz: Word, port: seq<seq<Long>>, ddr: seq<seq<Long>>,
    debug: seq<Long>, releaseBy: seq<seq<Word>>, responseBy: seq<seq<Word>>, bank: seq<BankHealth>)

  datatype Sensors = Sensors(valid: Word, errors: Word, timestamp: Long, temperature: seq<Signed32>, voltage: seq<Word>,
                             current: Signed32, supply: Word, power: Word)

  /** The array bounds of the snapshot structures. health holds capabilities, polls, late polls,
      saturated reads, read, release and response timeouts and the three last indexes. */
  predicate Shaped(s: Statistics, v: Sensors) {
    && |s.health| == 10 && |s.port| == 6 && |s.ddr| == 4 && |s.debug| == 16
    && |s.releaseBy| == 13 && |s.responseBy| == 13 && |s.bank| == 13
    && (forall i :: 0 <= i < 6 ==> |s.port[i]| == 8) && (forall i :: 0 <= i < 4 ==> |s.ddr[i]| == 8)
    && (forall i :: 0 <= i < 13 ==> |s.releaseBy[i]| == 16 && |s.responseBy[i]| == 16)
    && |v.temperature| == 2 && |v.voltage| == 6
  }

  // ----- ages

  /** age(): milliseconds since then, meant to saturate; UINT32_MAX when there is no age to give.
      The product is a 64-bit one. */
  function Age(now: Long, past: Long, hz: Word): Word {
    if past == 0 || hz == 0 || now < past then NEVER
    else
      var elapsed := now - past;
      if elapsed / hz > NEVER / 1000 then NEVER
      else Saturated(elapsed * 1000 % WORD64, hz)
  }

  function Saturated(x: nat, hz: nat): Word
    requires hz > 0
  {
    if x / hz > NEVER then NEVER else x / hz
  }

  /** The age is the elapsed milliseconds, capped at UINT32_MAX. */
  predicate AgeRight(now: Long, past: Long, hz: Word)
    requires 0 < past <= now && hz > 0
  {
    Age(now, past, hz) == Saturated((now - past) * 1000, hz)
  }

  /** Above this timer frequency the check before the multiplication is too weak to stop a wrap. */
  const SAFE_HZ: nat := 4294966592

  /** Ages are right for every pair of timestamps exactly when the frequency is at most SAFE_HZ. */
  lemma AgesRightIff(hz: Word)
    requires hz > 0
    ensures (forall now: Long, past: Long :: 0 < past <= now ==> AgeRight(now, past, hz)) <==> hz <= 4294966592
  {
    if hz <= SAFE_HZ {
      forall now: Long, past: Long | 0 < past <= now ensures AgeRight(now, past, hz) {
        LongAges(now - past, hz);
      }
    } else {
      var now := WrongAt(hz);
      assert 0 < 1 <= now && !AgeRight(now, 1, hz);
    }
  }

  /** An age that comes out wrong at a higher frequency. */
  lemma WrongAt(hz: Word) returns (now: Long)
    requires hz > SAFE_HZ
    ensures 1 <= now && !AgeRight(now, 1, hz)
  {
    var e: int := hz;
    e := e * 4294968 - 1;
    WrongAge(e, hz);
    now := e + 1;
  }

  /** A young enough age does not wrap; an old one is caught before the product. */
  lemma LongAges(e: int, h: int)
    requires 0 <= e && 0 < h <= SAFE_HZ
    ensures e / h > NEVER / 1000 ==> e * 1000 / h > NEVER
    ensures e / h <= NEVER / 1000 ==> e * 1000 < WORD64
  {
    var q := e / h;
    assert e == h * q + e % h;
    if q > NEVER / 1000 {
      MulLe(h, 4294968, q);
      DivGe(e * 1000, h, 4294968000);
    } else {
      MulLe(h, q, 4294967);
    }
  }

  lemma WrongAge(e: int, h: int)
    requires SAFE_HZ < h <= NEVER && e == h * 4294968 - 1
    ensures e / h == 4294967 && e * 1000 / h > NEVER && e * 1000 % WORD64 / h < 1000
  {
    assert e * 1000 == h * 4294968000 - 1000;
    Quotient(e, h, 4294967, h - 1);
    DivGe(e * 1000, h, 4294967296);
    var w := e * 1000 - WORD64;
    assert 0 <= w < WORD64;
    assert e * 1000 % WORD64 == w;
    if w / h >= 1000 {
      MulLe(h, 1000, w / h);
    }
  }

  lemma Quotient(x: int, h: int, q: int, r: int)
    requires h > 0 && x == h * q + r && 0 <= r < h
    ensures x / h == q
  {
    var p := x / h;
    assert x == h * p + x % h;
    assert h * (p + 1) == h * p + h && h * (q + 1) == h * q + h;
    if p < q { MulLe(h, p + 1, q); }
    if q < p { MulLe(h, q + 1, p); }
  }

  lemma MulLe(h: int, a: int, b: int)
    requires h >= 0 && a <= b
    ensures h * a <= h * b
  {}

  lemma DivGe(x: int, h: int, k: int)
    requires h > 0 && x >= h * k
    ensures x / h >= k
  {
    var q := x / h;
    assert x == h * q + x % h;
    assert h * (q + 1) == h * q + h;
    if q + 1 <= k { MulLe(h, q + 1, k); }
  }

  // ----- names

  const SYSTEM: Oid := [1, 3, 6, 1, 2, 1, 1]
  const PROJECT: Oid := [1, 3, 6, 1, 4, 1, 32473, 1]

  predicate IsTable(group: nat) { 2 <= group <= 4 || group == 6 || group == 7 }

  /** The name of a column and row of a group; tables have their entry arc in between. */
  function Name(group: nat, column: nat, row: nat): Oid {
    PROJECT + [group] + (if IsTable(group) then [1] else []) + [column, row]
  }

  /** Everything so far is in order and below the name. */
  ghost predicate Ready(m: Mib, o: Oid) {
    && Sorted(m) && |m| <= OBJECT_MAX
    && forall i :: 0 <= i < |m| ==> ObjectOk(m[i]) && Less(m[i].oid, o)
  }

  lemma ReadyLater(m: Mib, o: Oid, next: Oid)
    requires Ready(m, o) && (o == next || Less(o, next))
    ensures Ready(m, next)
  {
    if o != next {
      forall i | 0 <= i < |m| ensures Less(m[i].oid, next) { LessTransitive(m[i].oid, o, next); }
    }
  }

  lemma ReadyAppend(m: Mib, x: Object, next: Oid)
    requires Ready(m, x.oid) && ObjectOk(x) && Less(x.oid, next) && |m| < OBJECT_MAX
    ensures Ready(m + [x], next)
  {
    ReadyLater(m, x.oid, next);
  }

  lemma NamesOrdered(g: nat, c: nat, r: nat, h: nat, d: nat, s: nat)
    requires g < h || (g == h && (c < d || (c == d && r < s)))
    ensures Less(Name(g, c, r), Name(h, d, s))
  {
    var a, b := Name(g, c, r), Name(h, d, s);
    assert a[..8] == PROJECT == b[..8];
    LessAt(a, b, 8);
    assert a[8..] == [g] + (if IsTable(g) then [1] else []) + [c, r];
    assert b[8..] == [h] + (if IsTable(h) then [1] else []) + [d, s];
    if g == h {
      var k := if IsTable(g) then 10 else 9;
      assert a[..k] == b[..k];
      LessAt(a, b, k);
      assert a[k..] == [c, r] && b[k..] == [d, s];
      assert [c, r][1..] == [r] && [d, s][1..] == [s];
    }
  }

  // ----- building

  datatype PortState = PortState(speed: seq<Word>, advertise: seq<Word>)

  predicate PortsShaped(p: PortState) { |p.speed| == 6 && |p.advertise| == 4 }

  function Ascii(s: string): (b: Bytes)
    ensures |b| == |s|
  {
    seq(|s|, i requires 0 <= i < |s| => s[i] as int % 256)
  }

  const PORT_NAMES: seq<string> :=
    ["GEM0 right upper", "GEM1 right lower", "PL0 left upper", "PL1 left lower", "SFP", "CPU"]
  const DDR_NAMES: seq<string> := ["physical ingress write", "physical egress read", "CPU write", "CPU read"]
  const DEBUG_NAMES: seq<string> := [
    "GEM0 ingress stall", "GEM1 ingress stall", "PL0 ingress stall", "PL1 ingress stall", "SFP ingress stall",
    "GEM0 egress stall", "GEM1 egress stall", "PL0 egress stall", "PL1 egress stall", "SFP egress stall",
    "CPU to fabric stall", "fabric to CPU stall", "CPU allocation wait", "CPU enqueue wait", "link flush busy",
    "combined AXI errors"]

  function Entry(group: nat, column: nat, row: nat, tag: Byte, value: Long, text: string): Object {
    Object(Name(group, column, row), tag, 1, value, Ascii(text))
  }

  function Bit(x: Word, row: nat): nat
    requires row < 6
  {
    x / [1, 2, 4, 8, 16, 32][row] % 2
  }

  /** (uint64_t)(int64_t)v */
  function SignExtended(v: Signed32): Long {
    if v < 0 then v + WORD64 else v
  }

  function SystemObjects(uptime: Word): (m: Mib)
    ensures |m| == 4
  {
    [Object(SYSTEM + [1, 0], STRING, 1, 0, Ascii("KR260 open Ethernet switch; R5 FreeRTOS")),
     Object(SYSTEM + [2, 0], OBJECT_ID, 1, 0, []),
     Object(SYSTEM + [3, 0], TICKS, 1, uptime, []),
     Object(SYSTEM + [5, 0], STRING, 1, 0, Ascii("kr260-switch"))]
  }

  function HealthValue(s: Statistics, now: Long, hz: Word, ddr: bool, debug: bool, i: nat): Word
    requires |s.health| == 10 && i < 15
  {
    if i == 0 then (if s.available then 1 else 2)
    else if i < 6 then s.health[i-1]
    else if i == 6 then Age(now, s.timestamp, hz) else if i == 7 then hz
    else if i == 8 then 1 + (if ddr then 2 else 0) + (if debug then 4 else 0)
    else if i < 14 then s.health[i-4]
    else s.fabricHz
  }

  /** The fifteen health scalars; the ninth tells which counters this build has. */
  function HealthObject(s: Statistics, now: Long, hz: Word, ddr: bool, debug: bool, i: nat): Object
    requires |s.health| == 10 && i < 15
  {
    Entry(1, i + 1, 0, if i == 0 then INTEGER else if 2 <= i <= 5 || 9 <= i <= 10 then COUNTER else GAUGE,
          HealthValue(s, now, hz, ddr, debug, i), "")
  }

  /** Column and row of the port table: name, link state, the eight counters, speed and abilities.
      There is no column 11. */
  function PortObject(s: Statistics, links: Word, p: PortState, col: nat, row: nat): Object
    requires |s.port| == 6 && (forall i :: 0 <= i < 6 ==> |s.port[i]| == 8) && PortsShaped(p) && 1 <= col <= 13
             && row < 6
  {
    if col == 1 then Entry(2, col, row + 1, STRING, 0, PORT_NAMES[row])
    else if col == 2 then Entry(2, col, row + 1, INTEGER, if Bit(links, row) == 1 then 1 else 2, "")
    else if col <= 10 then Entry(2, col, row + 1, COUNTER64, s.port[row][col-3], "")
    else if col == 12 then Entry(2, col, row + 1, GAUGE, p.speed[row], "")
    else Entry(2, col, row + 1, GAUGE, if row < 4 then p.advertise[row] else 0, "")
  }

  function DdrObject(s: Statistics, col: nat, row: nat): Object
    requires |s.ddr| == 4 && (forall i :: 0 <= i < 4 ==> |s.ddr[i]| == 8) && 1 <= col <= 9 && row < 4
  {
    if col == 1 then Entry(3, col, row + 1, STRING, 0, DDR_NAMES[row])
    else Entry(3, col, row + 1, if col == 5 then GAUGE else COUNTER64, s.ddr[row][col-2], "")
  }

  function DebugObject(s: Statistics, col: nat, row: nat): Object
    requires |s.debug| == 16 && 1 <= col <= 2 && row < 16
  {
    if col == 1 then Entry(4, col, row + 1, STRING, 0, DEBUG_NAMES[row])
    else Entry(4, col, row + 1, COUNTER64, s.debug[row], "")
  }

  function SensorValue(v: Sensors, now: Long, hz: Word, i: nat): Long
    requires |v.temperature| == 2 && |v.voltage| == 6 && i < 14
  {
    if i == 0 then v.valid else if i == 1 then v.errors else if i == 2 then Age(now, v.timestamp, hz)
    else if i < 5 then SignExtended(v.temperature[i-3])
    else if i < 11 then v.voltage[i-5]
    else if i == 11 then SignExtended(v.current) else if i == 12 then v.supply else v.power
  }

  /** The fourteen sensor scalars; temperatures and the current are signed. */
  function SensorObject(v: Sensors, now: Long, hz: Word, i: nat): Object
    requires |v.temperature| == 2 && |v.voltage| == 6 && i < 14
  {
    Entry(5, i + 1, 0, if i == 1 then COUNTER else if i == 3 || i == 4 || i == 11 then INTEGER else GAUGE,
          SensorValue(v, now, hz, i), "")
  }

  function BankObject(s: Statistics, now: Long, hz: Word, col: nat, b: nat): Object
    requires |s.bank| == 13 && 1 <= col <= 5 && b < 13
  {
    var h := s.bank[b];
    var n: Word := if col == 1 then h.state else if col == 2 then Age(now, h.lastSuccess, hz)
      else if col == 3 then h.unavailable else if col == 4 then h.timeouts else h.status;
    Entry(7, col, b + 1, if col == 3 || col == 4 then COUNTER else GAUGE, n, "")
  }

  /** Slots of the banks before this one that are built. */
  function SlotsBefore(bank: nat, ddr: bool, debug: bool): nat {
    if bank == 0 then 0
    else SlotsBefore(bank - 1, ddr, debug) + if BankEnabled(bank - 1, ddr, debug) then BankSlots(bank - 1) else 0
  }

  function TimeoutObject(s: Statistics, col: nat, bank: nat, slot: nat): Object
    requires |s.releaseBy| == 13 && |s.responseBy| == 13 && 1 <= col <= 2 && bank < 13 && slot < 16
    requires forall i :: 0 <= i < 13 ==> |s.releaseBy[i]| == 16 && |s.responseBy[i]| == 16
  {
    Object(Name(6, col, bank) + [slot], COUNTER, 2,
           if col == 1 then s.releaseBy[bank][slot] else s.responseBy[bank][slot], [])
  }

  lemma SlotNames(col: nat, bank: nat, slot: nat)
    ensures Less(Name(6, col, bank), Name(6, col, bank) + [slot])
    ensures Less(Name(6, col, bank) + [slot], Name(6, col, bank) + [slot + 1])
    ensures Less(Name(6, col, bank) + [slot], Name(6, col, bank + 1))
  {
    var a, b, c := Name(6, col, bank), Name(6, col, bank) + [slot], Name(6, col, bank) + [slot + 1];
    assert b[..12] == a == c[..12] && a[..12] == a;
    LessAt(a, b, 12);
    LessAt(b, c, 12);
    assert a[12..] == [] && b[12..] == [slot] && c[12..] == [slot + 1];
    var d := Name(6, col, bank + 1);
    assert b[..11] == d[..11];
    LessAt(b, d, 11);
    assert b[11..] == [bank, slot] && d[11..] == [bank + 1];
  }

  // ----- which objects there are

  predicate IsHealth(s: Statistics, now: Long, hz: Word, ddr: bool, debug: bool, x: Object)
    requires |s.health| == 10
  {
    exists i :: 0 <= i < 15 && x == HealthObject(s, now, hz, ddr, debug, i)
  }

  predicate IsPort(s: Statistics, links: Word, p: PortState, x: Object)
    requires |s.port| == 6 && (forall i :: 0 <= i < 6 ==> |s.port[i]| == 8) && PortsShaped(p)
  {
    exists col, row :: 1 <= col <= 13 && col != 11 && 0 <= row < 6 && x == PortObject(s, links, p, col, row)
  }

  predicate IsDdr(s: Statistics, x: Object)
    requires |s.ddr| == 4 && (forall i :: 0 <= i < 4 ==> |s.ddr[i]| == 8)
  {
    exists col, row :: 1 <= col <= 9 && 0 <= row < 4 && x == DdrObject(s, col, row)
  }

  predicate IsDebug(s: Statistics, x: Object)
    requires |s.debug| == 16
  {
    exists col, row :: 1 <= col <= 2 && 0 <= row < 16 && x == DebugObject(s, col, row)
  }

  predicate IsSensor(v: Sensors, now: Long, hz: Word, x: Object)
    requires |v.temperature| == 2 && |v.voltage| == 6
  {
    exists i :: 0 <= i < 14 && x == SensorObject(v, now, hz, i)
  }

  predicate IsTimeout(s: Statistics, ddr: bool, debug: bool, x: Object)
    requires |s.releaseBy| == 13 && |s.responseBy| == 13
    requires forall i :: 0 <= i < 13 ==> |s.releaseBy[i]| == 16 && |s.responseBy[i]| == 16
  {
    exists col, bank, slot :: 1 <= col <= 2 && 0 <= bank < 13 && BankEnabled(bank, ddr, debug)
      && 0 <= slot < BankSlots(bank)
                              && x == TimeoutObject(s, col, bank, slot)
  }

  predicate IsBank(s: Statistics, now: Long, hz: Word, x: Object)
    requires |s.bank| == 13
  {
    exists col, b :: 1 <= col <= 5 && 0 <= b < 13 && x == BankObject(s, now, hz, col, b)
  }

  /** The objects of a build. */
  predicate Listed(s: Statistics, v: Sensors, p: PortState, now: Long, hz: Word, uptime: Word, links: Word, ddr: bool,
                   debug: bool, x: Object)
    requires Shaped(s, v) && PortsShaped(p)
  {
    || x in SystemObjects(uptime) || IsHealth(s, now, hz, ddr, debug, x) || IsPort(s, links, p, x)
    || (ddr && IsDdr(s, x)) || (debug && IsDebug(s, x))
    || IsSensor(v, now, hz, x) || IsTimeout(s, ddr, debug, x) || IsBank(s, now, hz, x)
  }

  /** None of them has a tag that a manager would take for an exception. */
  lemma ListedTag(s: Statistics, v: Sensors, p: PortState, now: Long, hz: Word, uptime: Word, links: Word, ddr: bool,
                  debug: bool, x: Object)
    requires Shaped(s, v) && PortsShaped(p) && Listed(s, v, p, now, hz, uptime, links, ddr, debug, x)
    ensures x.tag < 0x80
  {
  }

  function Following(xs: Mib, i: nat, next: Oid): Oid {
    if i < |xs| then xs[i].oid else next
  }

  predicate InPlace(xs: Mib, i: nat, next: Oid)
    requires i < |xs|
  {
    ObjectOk(xs[i]) && Less(xs[i].oid, Following(xs, i + 1, next))
  }

  ghost predicate Ascending(xs: Mib, next: Oid) {
    forall i :: 0 <= i < |xs| ==> InPlace(xs, i, next)
  }

  lemma SystemObjectsOk(uptime: Word, i: nat)
    requires i < 4
    ensures ObjectOk(SystemObjects(uptime)[i])
  {
    assert i == 0 || i == 1 || i == 2 || i == 3;
  }

  lemma SystemAscending(uptime: Word)
    ensures Ascending(SystemObjects(uptime), Name(1, 1, 0))
  {
    SystemNames(1, 2);
    SystemNames(2, 3);
    SystemNames(3, 5);
    var xs, next := SystemObjects(uptime), Name(1, 1, 0);
    assert xs[0].oid == SYSTEM + [1, 0] && xs[1].oid == SYSTEM + [2, 0] && xs[2].oid == SYSTEM + [3, 0]
           && xs[3].oid == SYSTEM + [5, 0];
    forall i | 0 <= i < 4 ensures InPlace(xs, i, next) {
      SystemObjectsOk(uptime, i);
      assert i == 0 || i == 1 || i == 2 || i == 3;
    }
  }

  lemma PortOk(s: Statistics, links: Word, p: PortState, col: nat, row: nat)
    requires |s.port| == 6 && (forall i :: 0 <= i < 6 ==> |s.port[i]| == 8) && PortsShaped(p) && 1 <= col <= 13
             && row < 6
    ensures ObjectOk(PortObject(s, links, p, col, row))
            && PortObject(s, links, p, col, row).oid == Name(2, col, row + 1)
  {
  }

  class Builder {
    var objects: Mib

    /** add(): append one object; the limit it asserts is never reached. */
    method Add(x: Object, ghost next: Oid)
      requires Ready(objects, x.oid) && ObjectOk(x) && Less(x.oid, next) && |objects| < OBJECT_MAX
      modifies this
      ensures objects == old(objects) + [x] && Ready(objects, next)
    {
      ReadyAppend(objects, x, next);
      objects := objects + [x];
    }

    /** One column of a table: rows 1, 2, ... in order. */
    method Column(group: nat, col: nat, xs: seq<Object>)
      requires 1 <= group < 100 && |objects| + |xs| <= OBJECT_MAX && Ready(objects, Name(group, col, 1))
      requires forall r :: 0 <= r < |xs| ==> ObjectOk(xs[r]) && xs[r].oid == Name(group, col, r + 1)
      modifies this
      ensures objects == old(objects) + xs && Ready(objects, Name(group, col + 1, 1))
    {
      for row := 0 to |xs|
        invariant objects == old(objects) + xs[..row] && Ready(objects, Name(group, col, row + 1))
      {
        NamesOrdered(group, col, row + 1, group, col, row + 2);
        Add(xs[row], Name(group, col, row + 2));
        assert xs[..row+1] == xs[..row] + [xs[row]];
      }
      assert xs[..|xs|] == xs;
      NamesOrdered(group, col, |xs| + 1, group, col + 1, 1);
      ReadyLater(objects, Name(group, col, |xs| + 1), Name(group, col + 1, 1));
    }

    /** The scalars of a group: columns 1, 2, ... with instance 0. */
    method Scalars(group: nat, xs: seq<Object>)
      requires 1 <= group < 100 && |objects| + |xs| <= OBJECT_MAX && Ready(objects, Name(group, 1, 0))
      requires forall i :: 0 <= i < |xs| ==> ObjectOk(xs[i]) && xs[i].oid == Name(group, i + 1, 0)
      modifies this
      ensures objects == old(objects) + xs && Ready(objects, Name(group + 1, 1, 0))
    {
      for i := 0 to |xs|
        invariant objects == old(objects) + xs[..i] && Ready(objects, Name(group, i + 1, 0))
      {
        NamesOrdered(group, i + 1, 0, group, i + 2, 0);
        Add(xs[i], Name(group, i + 2, 0));
        assert xs[..i+1] == xs[..i] + [xs[i]];
      }
      assert xs[..|xs|] == xs;
      NamesOrdered(group, |xs| + 1, 0, group + 1, 1, 0);
      ReadyLater(objects, Name(group, |xs| + 1, 0), Name(group + 1, 1, 0));
    }

    /** The slots of one bank in the timeout table. */
    method Slots(col: nat, bank: nat, xs: seq<Object>)
      requires |objects| + |xs| <= OBJECT_MAX && Ready(objects, Name(6, col, bank))
      requires forall i :: 0 <= i < |xs| ==> ObjectOk(xs[i]) && xs[i].oid == Name(6, col, bank) + [i]
      modifies this
      ensures objects == old(objects) + xs && Ready(objects, Name(6, col, bank + 1))
    {
      SlotNames(col, bank, 0);
      ReadyLater(objects, Name(6, col, bank), Name(6, col, bank) + [0]);
      for slot := 0 to |xs|
        invariant objects == old(objects) + xs[..slot] && Ready(objects, Name(6, col, bank) + [slot])
      {
        SlotNames(col, bank, slot);
        Add(xs[slot], Name(6, col, bank) + [slot + 1]);
        assert xs[..slot+1] == xs[..slot] + [xs[slot]];
      }
      assert xs[..|xs|] == xs;
      SlotNames(col, bank, |xs|);
      ReadyLater(objects, Name(6, col, bank) + [|xs|], Name(6, col, bank + 1));
    }

    /** Appends objects that are in order among themselves and below next. */
    method AddAll(xs: Mib, next: Oid)
      requires objects == [] && |xs| <= OBJECT_MAX && Ascending(xs, next)
      modifies this
      ensures objects == xs && Ready(objects, next)
    {
      for i := 0 to |xs|
        invariant objects == xs[..i] && Ready(objects, Following(xs, i, next))
      {
        assert InPlace(xs, i, next);
        assert xs[..i+1] == xs[..i] + [xs[i]];
        Add(xs[i], Following(xs, i + 1, next));
      }
      assert xs[..|xs|] == xs;
    }

    method System(uptime: Word)
      requires objects == []
      modifies this
      ensures Ready(objects, Name(1, 1, 0)) && objects == SystemObjects(uptime)
    {
      SystemAscending(uptime);
      AddAll(SystemObjects(uptime), Name(1, 1, 0));
    }

    method Health(s: Statistics, now: Long, hz: Word, ddr: bool, debug: bool)
      requires |s.health| == 10 && Ready(objects, Name(1, 1, 0)) && |objects| == 4
      modifies this
      ensures Ready(objects, Name(2, 1, 1)) && |objects| == 19 && old(objects) <= objects
      ensures forall x :: x in objects ==> x in old(objects) || IsHealth(s, now, hz, ddr, debug, x)
      ensures forall i :: 0 <= i < 15 ==> HealthObject(s, now, hz, ddr, debug, i) in objects
    {
      var xs := seq(15, i requires 0 <= i < 15 => HealthObject(s, now, hz, ddr, debug, i));
      assert forall i :: 0 <= i < 15 ==> HealthObject(s, now, hz, ddr, debug, i) == xs[i];
      EntriesOk();
      Scalars(1, xs);
      Skip(objects, 2, 1, 0, 2, 1, 1);
    }

    method PortColumn(s: Statistics, links: Word, p: PortState, col: nat)
      requires |s.port| == 6 && (forall i :: 0 <= i < 6 ==> |s.port[i]| == 8) && PortsShaped(p) && 1 <= col <= 13
      requires Ready(objects, Name(2, col, 1)) && |objects| <= 100
      modifies this
      ensures Ready(objects, Name(2, col + 1, 1)) && |objects| == |old(objects)| + 6 && old(objects) <= objects
      ensures forall row :: 0 <= row < 6 ==> PortObject(s, links, p, col, row) in objects
      ensures col != 11 ==> forall x :: x in objects ==> x in old(objects) || IsPort(s, links, p, x)
    {
      var xs := seq(6, r requires 0 <= r < 6 => PortObject(s, links, p, col, r));
      forall r | 0 <= r < 6 ensures ObjectOk(xs[r]) && xs[r].oid == Name(2, col, r + 1) {
        PortOk(s, links, p, col, r);
      }
      assert forall r :: 0 <= r < 6 ==> PortObject(s, links, p, col, r) == xs[r];
      Column(2, col, xs);
    }

    /** The port columns before the one that the table leaves out. */
    method FirstPorts(s: Statistics, links: Word, p: PortState)
      requires |s.port| == 6 && (forall i :: 0 <= i < 6 ==> |s.port[i]| == 8) && PortsShaped(p)
      requires Ready(objects, Name(2, 1, 1)) && |objects| == 19
      modifies this
      ensures Ready(objects, Name(2, 11, 1)) && |objects| == 79 && old(objects) <= objects
      ensures forall x :: x in objects ==> x in old(objects) || IsPort(s, links, p, x)
      ensures forall col, row :: 1 <= col <= 10 && 0 <= row < 6 ==> PortObject(s, links, p, col, row) in objects
    {
      for col := 1 to 11
        invariant Ready(objects, Name(2, col, 1)) && |objects| == 19 + 6 * (col - 1) && old(objects) <= objects
        invariant forall c, r :: 1 <= c < col && 0 <= r < 6 ==> PortObject(s, links, p, c, r) in objects
        invariant forall x :: x in objects ==> x in old(objects) || IsPort(s, links, p, x)
      {
        PortColumn(s, links, p, col);
      }
    }

    method Ports(s: Statistics, links: Word, p: PortState)
      requires |s.port| == 6 && (forall i :: 0 <= i < 6 ==> |s.port[i]| == 8) && PortsShaped(p)
      requires Ready(objects, Name(2, 1, 1)) && |objects| == 19
      modifies this
      ensures Ready(objects, Name(3, 1, 1)) && |objects| == 91 && old(objects) <= objects
      ensures forall x :: x in objects ==> x in old(objects) || IsPort(s, links, p, x)
      ensures forall col, row :: 1 <= col <= 13 && col != 11 && 0 <= row < 6 ==>
                PortObject(s, links, p, col, row) in objects
    {
      FirstPorts(s, links, p);
      Skip(objects, 2, 11, 1, 2, 12, 1);
      PortColumn(s, links, p, 12);
      PortColumn(s, links, p, 13);
      Skip(objects, 2, 14, 1, 3, 1, 1);
    }

    method Ddr(s: Statistics)
      requires |s.ddr| == 4 && (forall i :: 0 <= i < 4 ==> |s.ddr[i]| == 8)
      requires Ready(objects, Name(3, 1, 1)) && |objects| == 91
      modifies this
      ensures Ready(objects, Name(4, 1, 1)) && |objects| == 127 && old(objects) <= objects
      ensures forall x :: x in objects ==> x in old(objects) || IsDdr(s, x)
      ensures forall col, row :: 1 <= col <= 9 && 0 <= row < 4 ==> DdrObject(s, col, row) in objects
    {
      for col := 1 to 10
        invariant Ready(objects, Name(3, col, 1)) && |objects| == 91 + 4 * (col - 1) && old(objects) <= objects
        invariant forall c, r :: 1 <= c < col && 0 <= r < 4 ==> DdrObject(s, c, r) in objects
        invariant forall x :: x in objects ==> x in old(objects) || IsDdr(s, x)
      {
        var xs := seq(4, r requires 0 <= r < 4 => DdrObject(s, col, r));
        forall r | 0 <= r < 4
          ensures DdrObject(s, col, r) == xs[r] && ObjectOk(xs[r]) && xs[r].oid == Name(3, col, r + 1)
        {
          EntriesOk();
        }
        Column(3, col, xs);
      }
      Skip(objects, 3, 10, 1, 4, 1, 1);
    }

    method Debug(s: Statistics)
      requires |s.debug| == 16 && Ready(objects, Name(4, 1, 1)) && |objects| <= 127
      modifies this
      ensures Ready(objects, Name(5, 1, 0)) && |objects| == |old(objects)| + 32 && old(objects) <= objects
      ensures forall x :: x in objects ==> x in old(objects) || IsDebug(s, x)
      ensures forall col, row :: 1 <= col <= 2 && 0 <= row < 16 ==> DebugObject(s, col, row) in objects
    {
      for col := 1 to 3
        invariant Ready(objects, Name(4, col, 1)) && |objects| == |old(objects)| + 16 * (col - 1)
                  && old(objects) <= objects
        invariant forall c, r :: 1 <= c < col && 0 <= r < 16 ==> DebugObject(s, c, r) in objects
        invariant forall x :: x in objects ==> x in old(objects) || IsDebug(s, x)
      {
        var xs := seq(16, r requires 0 <= r < 16 => DebugObject(s, col, r));
        forall r | 0 <= r < 16
          ensures DebugObject(s, col, r) == xs[r] && ObjectOk(xs[r]) && xs[r].oid == Name(4, col, r + 1)
        {
          EntriesOk();
        }
        Column(4, col, xs);
      }
      Skip(objects, 4, 3, 1, 5, 1, 0);
    }

    method SensorScalars(v: Sensors, now: Long, hz: Word)
      requires |v.temperature| == 2 && |v.voltage| == 6 && Ready(objects, Name(5, 1, 0)) && |objects| <= 159
      modifies this
      ensures Ready(objects, Name(6, 1, 0)) && |objects| == |old(objects)| + 14 && old(objects) <= objects
      ensures forall x :: x in objects ==> x in old(objects) || IsSensor(v, now, hz, x)
      ensures forall i :: 0 <= i < 14 ==> SensorObject(v, now, hz, i) in objects
    {
      var xs := seq(14, i requires 0 <= i < 14 => SensorObject(v, now, hz, i));
      forall i | 0 <= i < 14
        ensures SensorObject(v, now, hz, i) == xs[i] && ObjectOk(xs[i]) && xs[i].oid == Name(5, i + 1, 0)
      {
        EntriesOk();
      }
      var group := 5;
      Scalars(group, xs);
      assert group + 1 == 6;
    }

    method TimeoutBank(s: Statistics, col: nat, bank: nat, ghost ddr: bool, ghost debug: bool)
      requires |s.releaseBy| == 13 && |s.responseBy| == 13 && 1 <= col <= 2 && bank < 13
               && BankEnabled(bank, ddr, debug)
      requires forall i :: 0 <= i < 13 ==> |s.releaseBy[i]| == 16 && |s.responseBy[i]| == 16
      requires Ready(objects, Name(6, col, bank)) && |objects| + BankSlots(bank) <= OBJECT_MAX
      modifies this
      ensures Ready(objects, Name(6, col, bank + 1)) && |objects| == |old(objects)| + BankSlots(bank)
              && old(objects) <= objects
      ensures forall k :: 0 <= k < BankSlots(bank) ==> TimeoutObject(s, col, bank, k) in objects
      ensures forall x :: x in objects ==> x in old(objects) || IsTimeout(s, ddr, debug, x)
    {
      var xs := seq(BankSlots(bank), k requires 0 <= k < BankSlots(bank) => TimeoutObject(s, col, bank, k));
      assert forall k :: 0 <= k < BankSlots(bank) ==> TimeoutObject(s, col, bank, k) == xs[k];
      Slots(col, bank, xs);
    }

    /** One column of the timeout table: the slots of every built bank. */
    method TimeoutColumn(s: Statistics, col: nat, ddr: bool, debug: bool)
      requires |s.releaseBy| == 13 && |s.responseBy| == 13 && 1 <= col <= 2
      requires forall i :: 0 <= i < 13 ==> |s.releaseBy[i]| == 16 && |s.responseBy[i]| == 16
      requires Ready(objects, Name(6, col, 0)) && |objects| <= 269
      modifies this
      ensures Ready(objects, Name(6, col + 1, 0)) && |objects| == |old(objects)| + SlotsBefore(13, ddr, debug)
              && old(objects) <= objects
      ensures forall x :: x in objects ==> x in old(objects) || IsTimeout(s, ddr, debug, x)
      ensures forall bank, slot :: 0 <= bank < 13 && BankEnabled(bank, ddr, debug) && 0 <= slot < BankSlots(bank) ==>
                TimeoutObject(s, col, bank, slot) in objects
    {
      SlotsBound(ddr, debug);
      for bank := 0 to 13
        invariant Ready(objects, Name(6, col, bank)) && |objects| == |old(objects)| + SlotsBefore(bank, ddr, debug)
                  && old(objects) <= objects
        invariant forall b, k :: 0 <= b < bank && BankEnabled(b, ddr, debug) && 0 <= k < BankSlots(b) ==>
                    TimeoutObject(s, col, b, k) in objects
        invariant forall x :: x in objects ==> x in old(objects) || IsTimeout(s, ddr, debug, x)
      {
        if BankEnabled(bank, ddr, debug) {
          SlotsMonotone(bank, ddr, debug);
          TimeoutBank(s, col, bank, ddr, debug);
        } else {
          Skip(objects, 6, col, bank, 6, col, bank + 1);
        }
      }
      Skip(objects, 6, col, 13, 6, col + 1, 0);
    }

    method Banks(s: Statistics, now: Long, hz: Word)
      requires |s.bank| == 13 && Ready(objects, Name(7, 1, 1)) && |objects| <= 365
      modifies this
      ensures Ready(objects, Name(7, 6, 1)) && |objects| == |old(objects)| + 65 && old(objects) <= objects
      ensures forall x :: x in objects ==> x in old(objects) || IsBank(s, now, hz, x)
      ensures forall col, b :: 1 <= col <= 5 && 0 <= b < 13 ==> BankObject(s, now, hz, col, b) in objects
    {
      for col := 1 to 6
        invariant Ready(objects, Name(7, col, 1)) && |objects| == |old(objects)| + 13 * (col - 1)
                  && old(objects) <= objects
        invariant forall c, b :: 1 <= c < col && 0 <= b < 13 ==> BankObject(s, now, hz, c, b) in objects
        invariant forall x :: x in objects ==> x in old(objects) || IsBank(s, now, hz, x)
      {
        var xs := seq(13, b requires 0 <= b < 13 => BankObject(s, now, hz, col, b));
        forall b | 0 <= b < 13
          ensures BankObject(s, now, hz, col, b) == xs[b] && ObjectOk(xs[b]) && xs[b].oid == Name(7, col, b + 1)
        {
          EntriesOk();
        }
        Column(7, col, xs);
      }
    }

    /** The groups that every build has before the sensors. */
    method Basic(s: Statistics, p: PortState, now: Long, hz: Word, uptime: Word, links: Word, ddr: bool, debug: bool)
      requires |s.health| == 10 && |s.port| == 6 && PortsShaped(p) && forall i :: 0 <= i < 6 ==> |s.port[i]| == 8
      modifies this
      ensures Ready(objects, Name(3, 1, 1)) && |objects| == 91
      ensures forall x :: x in objects ==>
        x in SystemObjects(uptime) || IsHealth(s, now, hz, ddr, debug, x) || IsPort(s, links, p, x)
      ensures SystemObjects(uptime) <= objects
      ensures forall i :: 0 <= i < 15 ==> HealthObject(s, now, hz, ddr, debug, i) in objects
      ensures forall col, row :: 1 <= col <= 13 && col != 11 && 0 <= row < 6 ==>
                PortObject(s, links, p, col, row) in objects
    {
      objects := [];
      System(uptime);
      Health(s, now, hz, ddr, debug);
      Ports(s, links, p);
    }

    /** The groups before the sensors. */
    method Front(s: Statistics, p: PortState, now: Long, hz: Word, uptime: Word, links: Word, ddr: bool, debug: bool)
      requires |s.health| == 10 && |s.port| == 6 && |s.ddr| == 4 && |s.debug| == 16 && PortsShaped(p)
      requires (forall i :: 0 <= i < 6 ==> |s.port[i]| == 8) && (forall i :: 0 <= i < 4 ==> |s.ddr[i]| == 8)
      modifies this
      ensures Ready(objects, Name(5, 1, 0)) && |objects| == 91 + (if ddr then 36 else 0) + if debug then 32 else 0
      ensures forall x :: x in objects ==>
        || x in SystemObjects(uptime) || IsHealth(s, now, hz, ddr, debug, x) || IsPort(s, links, p, x)
        || (ddr && IsDdr(s, x)) || (debug && IsDebug(s, x))
      ensures SystemObjects(uptime) <= objects
      ensures forall i :: 0 <= i < 15 ==> HealthObject(s, now, hz, ddr, debug, i) in objects
      ensures forall col, row :: 1 <= col <= 13 && col != 11 && 0 <= row < 6 ==>
                PortObject(s, links, p, col, row) in objects
      ensures ddr ==> forall col, row :: 1 <= col <= 9 && 0 <= row < 4 ==> DdrObject(s, col, row) in objects
      ensures debug ==> forall col, row :: 1 <= col <= 2 && 0 <= row < 16 ==> DebugObject(s, col, row) in objects
    {
      Basic(s, p, now, hz, uptime, links, ddr, debug);
      if ddr { Ddr(s); } else { Skip(objects, 3, 1, 1, 4, 1, 1); }
      if debug { Debug(s); } else { Skip(objects, 4, 1, 1, 5, 1, 0); }
    }

    /** snmp_mib_build(): for every snapshot and each of the four builds the table is strictly
        ascending and within the object limit, and holds exactly the listed values at their names. */
    method Build(s: Statistics, v: Sensors, p: PortState, now: Long, hz: Word, uptime: Word, links: Word, ddr: bool,
                 debug: bool)
      requires Shaped(s, v) && PortsShaped(p)
      modifies this
      ensures Sorted(objects) && |objects| <= OBJECT_MAX && forall x :: x in objects ==> ObjectOk(x)
      ensures |objects| == 170 + (if ddr then 36 else 0) + (if debug then 32 else 0) + 2 * SlotsBefore(13, ddr, debug)
      ensures forall x :: x in objects ==>
                Listed(s, v, p, now, hz, uptime, links, ddr, debug, x) && x.tag < 0x80
      ensures forall col, row :: 1 <= col <= 13 && col != 11 && 0 <= row < 6 ==>
                PortObject(s, links, p, col, row) in objects
      ensures SystemObjects(uptime) <= objects
      ensures forall i :: 0 <= i < 15 ==> HealthObject(s, now, hz, ddr, debug, i) in objects
      ensures forall i :: 0 <= i < 14 ==> SensorObject(v, now, hz, i) in objects
      ensures debug ==> forall col, row :: 1 <= col <= 2 && 0 <= row < 16 ==> DebugObject(s, col, row) in objects
      ensures ddr ==> forall col, row :: 1 <= col <= 9 && 0 <= row < 4 ==> DdrObject(s, col, row) in objects
      ensures forall col, bank, slot ::
                1 <= col <= 2 && 0 <= bank < 13 && BankEnabled(bank, ddr, debug) && 0 <= slot < BankSlots(bank) ==>
                TimeoutObject(s, col, bank, slot) in objects
      ensures forall col, b :: 1 <= col <= 5 && 0 <= b < 13 ==> BankObject(s, now, hz, col, b) in objects
    {
      Front(s, p, now, hz, uptime, links, ddr, debug);
      SensorScalars(v, now, hz);
      SlotsBound(ddr, debug);
      TimeoutColumn(s, 1, ddr, debug);
      TimeoutColumn(s, 2, ddr, debug);
      Skip(objects, 6, 3, 0, 7, 1, 1);
      Banks(s, now, hz);
      forall x | x in objects ensures x.tag < 0x80 {
        ListedTag(s, v, p, now, hz, uptime, links, ddr, debug, x);
      }
    }
  }

  lemma Skip(m: Mib, group: nat, col: nat, row: nat, h: nat, d: nat, s: nat)
    requires Ready(m, Name(group, col, row))
    requires group < h || (group == h && (col < d || (col == d && row < s)))
    ensures Ready(m, Name(h, d, s))
  {
    NamesOrdered(group, col, row, h, d, s);
    ReadyLater(m, Name(group, col, row), Name(h, d, s));
  }

  lemma {:induction false} SlotsMonotone(bank: nat, ddr: bool, debug: bool)
    requires bank < 13
    ensures SlotsBefore(bank + 1, ddr, debug) <= SlotsBefore(13, ddr, debug)
    decreases 13 - bank
  {
    if bank < 12 { SlotsMonotone(bank + 1, ddr, debug); }
  }

  /** 48 slots in the port banks, 32 more with DDR counters and 16 more with debug counters. */
  lemma SlotsBound(ddr: bool, debug: bool)
    ensures SlotsBefore(13, ddr, debug) == 48 + (if ddr then 32 else 0) + (if debug then 16 else 0)
  {
    assert SlotsBefore(1, ddr, debug) == 4;
    assert SlotsBefore(3, ddr, debug) == 12;
    assert SlotsBefore(5, ddr, debug) == 24;
    assert SlotsBefore(7, ddr, debug) == 40;
    assert SlotsBefore(9, ddr, debug) == 48 + if ddr then 8 else 0;
    assert SlotsBefore(11, ddr, debug) == 48 + if ddr then 24 else 0;
  }

  lemma SystemNames(a: nat, b: nat)
    requires a < b
    ensures Less(SYSTEM + [a, 0], SYSTEM + [b, 0]) && Less(SYSTEM + [b, 0], Name(1, 1, 0))
  {
    var x, y, z := SYSTEM + [a, 0], SYSTEM + [b, 0], Name(1, 1, 0);
    assert x[..7] == SYSTEM == y[..7];
    LessAt(x, y, 7);
    assert x[7..] == [a, 0] && y[7..] == [b, 0];
    assert y[..4] == [1, 3, 6, 1] == z[..4];
    LessAt(y, z, 4);
    assert y[4..][0] == 2 && z[4..][0] == 4;
  }

  /** Every object add() can make in this table is well formed. */
  lemma EntriesOk()
    ensures forall g: nat, c: nat, r: nat, tag: Byte, v: Long, t: string
      {:trigger Entry(g, c, r, tag, v, t)} :: g < 100 && c < 100 && r < 100 && |t| < 100 ==>
          ObjectOk(Entry(g, c, r, tag, v, t))
  {}
}
