/**
 The destructive-read statistics collector. Thirteen hardware banks each hold a counter per
 slot and at most one pending read; capturing a slot clears it, and a captured value stays
 with its bank until a DATA read takes it. The firmware polls the banks and accumulates.

 The hardware is an environment: its pure steps come first, with what each conserves; the
 firmware then drives it through a register interface that may advance between any two
 accesses, stop its clocks and time out.
*/
module Statistics {
  import opened Common

  const BANKS: nat := 13
  const SLOTS: nat := 16
  const INDEXES: nat := 208
  const SENTINEL: nat := 0xffff_ffff
  const SATURATED: nat := 0x8000_0000

  function Index(bank: nat, slot: nat): (k: nat)
    requires bank < BANKS && slot < SLOTS
    ensures k < INDEXES && k / SLOTS == bank && k % SLOTS == slot
  {
    bank * SLOTS + slot
  }

  /** Largest value a bank's counters hold: 27, 30 or 28 bits. */
  function Cap(bank: nat): (c: nat)
    ensures c < 0x4000_0000
  {
    if bank < 8 then 0x7ff_ffff else if bank < 12 then 0x3fff_ffff else 0xfff_ffff
  }

  /** Slot 3 of the DDR banks is a maximum; every other slot is a sum. */
  predicate IsMaximum(k: nat) {
    8 <= k / SLOTS < 12 && k % SLOTS == 3
  }

  // ----- the hardware

  /** A source counter: what it holds, whether it has saturated since it was last cleared, and,
      for the record, all that ever happened to it: amounts added, amounts dropped by
      saturation, the largest sample and the largest value handed over. */
  datatype Counter = Counter(residue: nat, overflow: bool, events: nat, lost: nat, peak: nat, taken: nat)

  /** A bank's mailbox: the retained slot or -1, and the captured value once ready. */
  datatype Mailbox = Mailbox(pending: int, ready: bool, held: nat, heldOverflow: bool)

  datatype Hw = Hw(counters: seq<Counter>, mail: seq<Mailbox>)

  predicate WellFormed(s: Hw) {
    && |s.counters| == INDEXES && |s.mail| == BANKS
    && (forall k :: 0 <= k < INDEXES ==> s.counters[k].residue <= Cap(k / SLOTS))
    && (forall b :: 0 <= b < BANKS ==>
          && -1 <= s.mail[b].pending < SLOTS && s.mail[b].held <= Cap(b)
          && (s.mail[b].ready ==> s.mail[b].pending >= 0))
  }

  function Max(a: nat, b: nat): nat { if a < b then b else a }
  function Min(a: nat, b: nat): nat { if a < b then a else b }

  function Bumped(c: Counter, e: nat, k: nat): Counter {
    var cap := Cap(k / SLOTS);
    if IsMaximum(k) then
      var x := Min(e, cap);
      c.(residue := Max(c.residue, x), overflow := c.overflow || e > cap, peak := Max(c.peak, x))
    else
      var x := Min(c.residue + e, cap);
      c.(residue := x, overflow := c.overflow || c.residue + e > cap,
         events := c.events + e, lost := c.lost + (c.residue + e - x))
  }

  /** Bank b's pending read captures its slot: the value moves to the mailbox and the counter clears. */
  predicate Captures(s: Hw, capture: seq<bool>, b: nat)
    requires WellFormed(s) && |capture| == BANKS && b < BANKS
  {
    capture[b] && s.mail[b].pending >= 0 && !s.mail[b].ready
  }

  /** Time passes: events e arrive at every counter, then the banks in capture may capture. */
  function Advanced(s: Hw, e: seq<nat>, capture: seq<bool>): Hw
    requires WellFormed(s) && |e| == INDEXES && |capture| == BANKS
  {
    Hw(
      seq(INDEXES, k requires 0 <= k < INDEXES =>
        var c := Bumped(s.counters[k], e[k], k);
        if Captures(s, capture, k / SLOTS) && s.mail[k / SLOTS].pending == k % SLOTS
        then c.(residue := 0, overflow := false) else c),
      seq(BANKS, b requires 0 <= b < BANKS =>
        var m := s.mail[b];
        if Captures(s, capture, b) then
          var k := Index(b, m.pending);
          var c := Bumped(s.counters[k], e[k], k);
          Mailbox(m.pending, true, c.residue, c.overflow)
        else m))
  }

  /** The value captured from counter k and not yet read. */
  function InMail(s: Hw, k: nat): nat
    requires WellFormed(s) && k < INDEXES
  {
    var m := s.mail[k / SLOTS];
    if m.ready && m.pending == k % SLOTS then m.held else 0
  }

  /** Everything of a summed counter that is not yet in the firmware's total. */
  function Outstanding(s: Hw, k: nat): nat
    requires WellFormed(s) && k < INDEXES
  {
    s.counters[k].residue + InMail(s, k) + s.counters[k].lost
  }

  function Highest(s: Hw, k: nat): nat
    requires WellFormed(s) && k < INDEXES
  {
    Max(s.counters[k].residue, InMail(s, k))
  }

  /** A loss of counts is marked in the counter or in the mailbox. */
  predicate Marked(s: Hw, k: nat)
    requires WellFormed(s) && k < INDEXES
  {
    var m := s.mail[k / SLOTS];
    s.counters[k].overflow || (m.ready && m.pending == k % SLOTS && m.heldOverflow)
  }

  /** The same amount x reaches the highest value outstanding and the record of samples. */
  ghost predicate Sampled(s: Hw, t: Hw, k: nat)
    requires WellFormed(s) && WellFormed(t) && k < INDEXES
  {
    exists x: nat :: Highest(t, k) == Max(Highest(s, k), x) && t.counters[k].peak == Max(s.counters[k].peak, x)
  }

  predicate Captured(s: Hw, k: nat)
    requires WellFormed(s) && k < INDEXES
  {
    s.mail[k / SLOTS].ready && s.mail[k / SLOTS].pending == k % SLOTS
  }

  /** A value captured between s and t left behind only what was counted in between. */
  predicate ClearedByCapture(s: Hw, t: Hw, k: nat)
    requires WellFormed(s) && WellFormed(t) && k < INDEXES
  {
    var gained := t.counters[k].events - s.counters[k].events;
    var lost := t.counters[k].lost - s.counters[k].lost;
    && lost <= gained
    && (Captured(t, k) ==> t.counters[k].residue + lost <= gained + if Captured(s, k) then s.counters[k].residue else 0)
  }

  /** What a read of the slot would hand over. */
  function Next(s: Hw, k: nat): nat
    requires WellFormed(s) && k < INDEXES
  {
    if Captured(s, k) then s.mail[k / SLOTS].held else s.counters[k].residue
  }

  /** Counter k gained exactly its events; anything saturation dropped is marked. */
  ghost predicate Conserved(s: Hw, t: Hw, k: nat)
    requires WellFormed(s) && WellFormed(t) && k < INDEXES
  {
    && (if IsMaximum(k) then Sampled(s, t, k)
        else Outstanding(t, k) - t.counters[k].events == Outstanding(s, k) - s.counters[k].events)
    && s.counters[k].lost <= t.counters[k].lost && s.counters[k].events <= t.counters[k].events
    && t.counters[k].taken == s.counters[k].taken
    && (if IsMaximum(k) then Next(s, k) <= Next(t, k) else ClearedByCapture(s, t, k))
    && (Marked(s, k) ==> Marked(t, k))
    && (t.counters[k].lost > s.counters[k].lost ==> Marked(t, k))
  }

  /** Nothing was handed to the firmware between s and t. */
  ghost predicate Evolves(s: Hw, t: Hw) {
    WellFormed(s) && WellFormed(t) && forall k: nat :: k < INDEXES ==> Conserved(s, t, k)
  }

  /** Time neither creates nor loses counts, and no mailbox changes its slot. */
  lemma AdvanceConserves(s: Hw, e: seq<nat>, capture: seq<bool>)
    requires WellFormed(s) && |e| == INDEXES && |capture| == BANKS
    ensures var t := Advanced(s, e, capture);
      && Evolves(s, t)
      && forall b :: 0 <= b < BANKS ==>
           t.mail[b].pending == s.mail[b].pending && (s.mail[b].ready ==> t.mail[b] == s.mail[b])
  {
    var t := Advanced(s, e, capture);
    assert WellFormed(t);
    forall k: nat | k < INDEXES ensures Conserved(s, t, k) {
      AdvanceConservesAt(s, e, capture, k);
    }
  }

  lemma AdvanceConservesAt(s: Hw, e: seq<nat>, capture: seq<bool>, k: nat)
    requires WellFormed(s) && |e| == INDEXES && |capture| == BANKS && k < INDEXES
    requires WellFormed(Advanced(s, e, capture))
    ensures Conserved(s, Advanced(s, e, capture), k)
  {
    var t := Advanced(s, e, capture);
    if IsMaximum(k) {
      var x := Min(e[k], Cap(k / SLOTS));
      assert Highest(t, k) == Max(Highest(s, k), x) && t.counters[k].peak == Max(s.counters[k].peak, x);
    }
  }

  lemma EvolvesReflexive(s: Hw)
    requires WellFormed(s)
    ensures Evolves(s, s)
  {
    forall k: nat | k < INDEXES ensures Conserved(s, s, k) {
      assert Highest(s, k) == Max(Highest(s, k), 0) && s.counters[k].peak == Max(s.counters[k].peak, 0);
    }
  }

  lemma EvolvesTransitive(s: Hw, t: Hw, u: Hw)
    requires Evolves(s, t) && Evolves(t, u)
    ensures Evolves(s, u)
  {
    forall k: nat | k < INDEXES ensures Conserved(s, u, k) {
      assert Conserved(s, t, k) && Conserved(t, u, k);
      if IsMaximum(k) {
        var x: nat :| Highest(t, k) == Max(Highest(s, k), x) && t.counters[k].peak == Max(s.counters[k].peak, x);
        var y: nat :| Highest(u, k) == Max(Highest(t, k), y) && u.counters[k].peak == Max(t.counters[k].peak, y);
        var z := Max(x, y);
        assert Highest(u, k) == Max(Highest(s, k), z) && u.counters[k].peak == Max(s.counters[k].peak, z);
      }
    }
  }

  /** The bank has no pending read, or the pending one is of this slot. */
  predicate Retains(s: Hw, bank: nat, slot: nat)
    requires WellFormed(s) && bank < BANKS
  {
    s.mail[bank].pending == -1 || s.mail[bank].pending == slot
  }

  /** A DATA read with no pending read retains its slot until it is answered. */
  function Requested(s: Hw, bank: nat, slot: nat): Hw
    requires WellFormed(s) && bank < BANKS && slot < SLOTS
  {
    s.(mail := s.mail[bank := Mailbox(slot, false, 0, false)])
  }

  lemma RequestConserves(s: Hw, bank: nat, slot: nat)
    requires WellFormed(s) && bank < BANKS && slot < SLOTS && s.mail[bank].pending == -1
    ensures Evolves(s, Requested(s, bank, slot))
  {
    var t := Requested(s, bank, slot);
    forall k: nat | k < INDEXES ensures Conserved(s, t, k) {
      if IsMaximum(k) {
        assert Highest(t, k) == Max(Highest(s, k), 0) && t.counters[k].peak == Max(s.counters[k].peak, 0);
      }
    }
  }

  /** The captured value of a bank is handed over and its mailbox emptied. */
  function Taken(s: Hw, bank: nat): Hw
    requires WellFormed(s) && bank < BANKS
  {
    var m := s.mail[bank];
    s.(mail := s.mail[bank := Mailbox(-1, false, 0, false)],
       counters := if !m.ready then s.counters
                   else
                     var k := Index(bank, m.pending);
                     s.counters[k := s.counters[k].(taken := Max(s.counters[k].taken, m.held))])
  }

  function Word(m: Mailbox): nat {
    m.held + if m.heldOverflow then 0x8000_0000 else 0
  }

  /** What is still to be collected of a summed counter, against all that was ever counted. */
  function Owed(s: Hw, k: nat): int
    requires WellFormed(s) && k < INDEXES
  {
    Outstanding(s, k) - s.counters[k].events
  }

  /** What would be owed of a counter whose every count had just been collected. */
  function Settled(s: Hw, k: nat): int
    requires WellFormed(s) && k < INDEXES
  {
    s.counters[k].lost - s.counters[k].events
  }

  /** The largest value of a maximum so far, handed over or not. */
  function Reach(s: Hw, k: nat): nat
    requires WellFormed(s) && k < INDEXES
  {
    Max(s.counters[k].taken, Highest(s, k))
  }

  predicate Paid(s: Hw, t: Hw, k: nat)
    requires WellFormed(s) && WellFormed(t) && k < INDEXES
  {
    if IsMaximum(k) then s.counters[k].taken <= t.counters[k].taken && Reach(s, k) <= Reach(t, k)
    else Owed(t, k) <= Owed(s, k) && Settled(t, k) <= Settled(s, k)
  }

  /** Collecting only ever pays off what is owed, and drops no more than was counted. */
  ghost predicate PaidDown(s: Hw, t: Hw) {
    WellFormed(s) && WellFormed(t) && forall k: nat :: k < INDEXES ==> Paid(s, t, k)
  }

  /** All that counter k had counted by state s, bar what saturation dropped, is collected in state t;
      of a maximum, a value no smaller than any by then. */
  predicate UpToDate(s: Hw, t: Hw, k: nat)
    requires WellFormed(s) && WellFormed(t) && k < INDEXES
  {
    if IsMaximum(k) then Reach(s, k) <= t.counters[k].taken else Owed(t, k) <= Settled(s, k)
  }

  lemma EvolvesPays(s: Hw, t: Hw)
    requires Evolves(s, t)
    ensures PaidDown(s, t)
  {
    forall k: nat | k < INDEXES ensures Paid(s, t, k) {
      assert Conserved(s, t, k);
    }
  }

  lemma TakenPays(s: Hw, mid: Hw, t: Hw, bank: nat)
    requires Evolves(s, mid) && bank < BANKS && Evolves(Taken(mid, bank), t)
    ensures PaidDown(s, t)
  {
    EvolvesPays(s, mid);
    EvolvesPays(Taken(mid, bank), t);
    forall k: nat | k < INDEXES ensures Paid(mid, Taken(mid, bank), k) {
    }
    PaidDownTransitive(s, mid, Taken(mid, bank));
    PaidDownTransitive(s, Taken(mid, bank), t);
  }

  /** A read requested in state s and answered later leaves nothing of before s outstanding. */
  lemma AnsweredIsUpToDate(s: Hw, mid: Hw, t: Hw, bank: nat, slot: nat)
    requires bank < BANKS && slot < SLOTS && Evolves(s, mid) && s.mail[bank].pending == -1
    requires mid.mail[bank].ready && mid.mail[bank].pending == slot && Evolves(Taken(mid, bank), t)
    ensures UpToDate(s, t, Index(bank, slot))
  {
    var k := Index(bank, slot);
    assert Conserved(s, mid, k) && Conserved(Taken(mid, bank), t, k);
  }

  /** Being up to date with a later state is being up to date with an earlier one, and it lasts. */
  lemma StaysUpToDate(s: Hw, t: Hw, u: Hw, k: nat)
    requires PaidDown(s, t) && PaidDown(t, u) && k < INDEXES
    ensures UpToDate(t, u, k) ==> UpToDate(s, u, k)
    ensures UpToDate(s, t, k) ==> UpToDate(s, u, k)
  {
    assert Paid(s, t, k) && Paid(t, u, k);
  }

  lemma PaidDownTransitive(s: Hw, t: Hw, u: Hw)
    requires PaidDown(s, t) && PaidDown(t, u)
    ensures PaidDown(s, u)
  {
    forall k: nat | k < INDEXES ensures Paid(s, u, k) {
      assert Paid(s, t, k) && Paid(t, u, k);
    }
  }

  // ----- the register interface

  /** BANK_STATUS: pending, ready, source release busy, clock progressing, retained slot, clock gap. */
  datatype Status = Status(pending: bool, ready: bool, release: bool, clock: bool, slot: nat, gap: bool)

  class Registers {
    var s: Hw
    var bank: nat
    var slot: nat
    const prompt: bool   // every source clock runs and every request is answered in time

    ghost predicate Valid()
      reads this
    {
      WellFormed(s) && bank < BANKS && slot < SLOTS
    }

    /** Any number of events arrive and any pending reads are captured, all of them if prompt. */
    method Tick()
      requires Valid()
      modifies this`s
      ensures Valid() && Evolves(old(s), s)
      ensures forall b :: 0 <= b < BANKS ==>
        s.mail[b].pending == old(s).mail[b].pending && (old(s).mail[b].ready ==> s.mail[b] == old(s).mail[b])
      ensures prompt ==> forall b :: 0 <= b < BANKS && s.mail[b].pending >= 0 ==> s.mail[b].ready
    {
      ghost var all := seq(BANKS, _ => true);
      assert |seq(INDEXES, _ => 0)| == INDEXES && |all| == BANKS;
      var e: seq<nat> :| |e| == INDEXES;
      var capture: seq<bool> :| |capture| == BANKS && (prompt ==> forall b :: 0 <= b < BANKS ==> capture[b]);
      AdvanceConserves(s, e, capture);
      s := Advanced(s, e, capture);
    }

    method Select(b: nat, k: nat)
      requires Valid() && b < BANKS && k < SLOTS
      modifies this
      ensures Valid() && Evolves(old(s), s) && bank == b && slot == k
      ensures forall x :: 0 <= x < BANKS ==> s.mail[x].pending == old(s).mail[x].pending
    {
      bank, slot := b, k;
      Tick();
    }

    method ReadStatus() returns (st: Status)
      requires Valid()
      modifies this`s
      ensures Valid() && Evolves(old(s), s)
      ensures forall x :: 0 <= x < BANKS ==> s.mail[x].pending == old(s).mail[x].pending
      ensures st.pending <==> s.mail[bank].pending >= 0
      ensures st.pending ==> st.slot == s.mail[bank].pending
      ensures st.ready == s.mail[bank].ready && (prompt ==> st.clock) && st.slot < SLOTS
    {
      Tick();
      var m := s.mail[bank];
      var release: bool, clock: bool, gap: bool := *, *, *;
      clock := clock || prompt;
      var stale: nat :| stale < SLOTS;
      st := Status(m.pending >= 0, m.ready, release, clock, if m.pending >= 0 then m.pending else stale, gap);
    }

    /** The destructive read. Firmware must never name another slot than the pending one. It
        answers with the captured word, or times out and leaves the request where it was. */
    method ReadData() returns (v: nat)
      requires Valid() && Retains(s, bank, slot)
      modifies this`s
      ensures Valid()
      ensures forall x :: 0 <= x < BANKS && x != bank ==> s.mail[x].pending == old(s).mail[x].pending
      ensures v == 0xffff_ffff ==> Evolves(old(s), s) && Retains(s, bank, slot) && !prompt
      ensures v != 0xffff_ffff ==> exists mid :: (
        && Evolves(old(s), mid) && mid.mail[bank].ready && mid.mail[bank].pending == slot
        && v == Word(mid.mail[bank]) && s == Taken(mid, bank))
    {
      ghost var s0 := s;
      EvolvesReflexive(s);
      if s.mail[bank].pending == -1 {
        var stuck: bool := *;
        if stuck && !prompt { Tick(); return 0xffff_ffff; }
        RequestConserves(s, bank, slot);
        s := Requested(s, bank, slot);
      }
      ghost var s1 := s;
      Tick();
      EvolvesTransitive(s0, s1, s);
      var late: bool := *;
      if (late && !prompt) || !s.mail[bank].ready { return 0xffff_ffff; }
      v := Word(s.mail[bank]);
      s := Taken(s, bank);
    }
  }

  // ----- the firmware's totals

  /** The cell of the snapshot that a hardware index accumulates into. */
  datatype Cell = Port(port: nat, column: nat) | Ddr(master: nat, column: nat) | Debug(column: nat)

  function CellOf(bank: nat, slot: nat, ddr: bool, debug: bool): Option<Cell> {
    if bank < 4 && slot < 4 then Some(Port(bank / 2, (bank % 2) * 4 + slot))
    else if 4 <= bank < 8 && slot < 8 then Some(Port(bank - 2, slot))
    else if ddr && 8 <= bank < 12 && slot < 8 then Some(Ddr(bank - 8, slot))
    else if debug && bank == 12 then Some(Debug(slot))
    else None
  }

  /** No two hardware indexes share a cell, and every cell is inside its array. */
  lemma CellsAreDistinct(b: nat, i: nat, c: nat, j: nat, ddr: bool, debug: bool)
    requires b < BANKS && c < BANKS && i < SLOTS && j < SLOTS
    requires CellOf(b, i, ddr, debug).Some? && CellOf(b, i, ddr, debug) == CellOf(c, j, ddr, debug)
    ensures b == c && i == j
    ensures match CellOf(b, i, ddr, debug).value
      case Port(p, x) => p < 6 && x < 8
      case Ddr(m, x) => m < 4 && x < 8
      case Debug(x) => x < 16
  {}

  /** Every retained slot is one the firmware scans. */
  ghost predicate InRange(s: Hw)
    requires WellFormed(s)
  {
    forall b: nat :: b < BANKS ==> s.mail[b].pending < BankSlots(b)
  }

  type Totals = map<Cell, nat>

  /** Total of cell c against the hardware it collects from index k since state s0: sums are exact
      modulo the 64-bit accumulator, maxima are the largest sample. */
  ghost predicate Exact(totals: Totals, c: Cell, s0: Hw, s: Hw, k: nat)
    requires WellFormed(s0) && WellFormed(s) && k < INDEXES
  {
    if IsMaximum(k) then Peaks(totals, c, s0, s, k) else Sums(totals, c, s0, s, k)
  }

  ghost predicate Peaks(totals: Totals, c: Cell, s0: Hw, s: Hw, k: nat)
    requires WellFormed(s0) && WellFormed(s) && k < INDEXES
  {
    && c in totals
    && totals[c] == s.counters[k].taken && Reach(s, k) == Max(Highest(s0, k), s.counters[k].peak)
  }

  ghost predicate Sums(totals: Totals, c: Cell, s0: Hw, s: Hw, k: nat)
    requires WellFormed(s0) && WellFormed(s) && k < INDEXES
  {
    var collected := Outstanding(s0, k) + s.counters[k].events - Outstanding(s, k);
    c in totals && collected >= 0 && totals[c] == collected % 0x1_0000_0000_0000_0000
  }

  /** The counters behind the published totals: receive and transmit banks of four slots for the two GEMs, one
      bank of eight for each further port and each DDR master, whose fourth is a maximum, and the debug bank. */
  ghost predicate Published(totals: Totals, s0: Hw, s: Hw, ddr: bool, debug: bool) {
    && WellFormed(s0) && WellFormed(s)
    && (forall p, c :: 0 <= p < 2 && 0 <= c < 4 ==> Sums(totals, Port(p, c), s0, s, 32 * p + c))
    && (forall p, c :: 0 <= p < 2 && 4 <= c < 8 ==> Sums(totals, Port(p, c), s0, s, 32 * p + 12 + c))
    && (forall p, c :: 2 <= p < 6 && 0 <= c < 8 ==> Sums(totals, Port(p, c), s0, s, 16 * p + 32 + c))
    && (ddr ==> forall m, c :: 0 <= m < 4 && 0 <= c < 8 && c != 3 ==> Sums(totals, Ddr(m, c), s0, s, 128 + 16 * m + c))
    && (ddr ==> forall m :: 0 <= m < 4 ==> Peaks(totals, Ddr(m, 3), s0, s, 131 + 16 * m))
    && (debug ==> forall c :: 0 <= c < 16 ==> Sums(totals, Debug(c), s0, s, 192 + c))
  }

  ghost predicate AllExact(totals: Totals, s0: Hw, s: Hw, ddr: bool, debug: bool) {
    && WellFormed(s0) && WellFormed(s)
    && forall b: nat, i: nat {:trigger CellOf(b, i, ddr, debug)} ::
         b < BANKS && i < SLOTS && CellOf(b, i, ddr, debug).Some? ==>
         Exact(totals, CellOf(b, i, ddr, debug).value, s0, s, Index(b, i))
  }

  lemma PortsPublished(totals: Totals, s0: Hw, s: Hw, ddr: bool, debug: bool)
    requires AllExact(totals, s0, s, ddr, debug)
    ensures forall p, c :: 0 <= p < 2 && 0 <= c < 4 ==> Sums(totals, Port(p, c), s0, s, 32 * p + c)
    ensures forall p, c :: 0 <= p < 2 && 4 <= c < 8 ==> Sums(totals, Port(p, c), s0, s, 32 * p + 12 + c)
    ensures forall p, c :: 2 <= p < 6 && 0 <= c < 8 ==> Sums(totals, Port(p, c), s0, s, 16 * p + 32 + c)
  {
    forall p, c | 0 <= p < 2 && 0 <= c < 4 ensures Sums(totals, Port(p, c), s0, s, 32 * p + c) {
      assert CellOf(2 * p, c, ddr, debug) == Some(Port(p, c));
    }
    forall p, c | 0 <= p < 2 && 4 <= c < 8 ensures Sums(totals, Port(p, c), s0, s, 32 * p + 12 + c) {
      assert CellOf(2 * p + 1, c - 4, ddr, debug) == Some(Port(p, c));
    }
    forall p, c | 2 <= p < 6 && 0 <= c < 8 ensures Sums(totals, Port(p, c), s0, s, 16 * p + 32 + c) {
      assert CellOf(p + 2, c, ddr, debug) == Some(Port(p, c));
    }
  }

  /** Exact totals are the published ones, each with its own counter. */
  lemma ExactIsPublished(totals: Totals, s0: Hw, s: Hw, ddr: bool, debug: bool)
    requires AllExact(totals, s0, s, ddr, debug)
    ensures Published(totals, s0, s, ddr, debug)
  {
    PortsPublished(totals, s0, s, ddr, debug);
    if ddr {
      forall m, c | 0 <= m < 4 && 0 <= c < 8 ensures Exact(totals, Ddr(m, c), s0, s, 128 + 16 * m + c) {
        assert CellOf(8 + m, c, ddr, debug) == Some(Ddr(m, c));
      }
      forall m | 0 <= m < 4 ensures Peaks(totals, Ddr(m, 3), s0, s, 131 + 16 * m) {
        assert Exact(totals, Ddr(m, 3), s0, s, 128 + 16 * m + 3);
      }
    }
    if debug {
      forall c | 0 <= c < 16 ensures Sums(totals, Debug(c), s0, s, 192 + c) {
        assert CellOf(12, c, ddr, debug) == Some(Debug(c));
      }
    }
  }

  /** Until a saturated word has been counted, any loss is still marked in hardware. */
  ghost predicate LossesVisible(s: Hw, counted: bool) {
    && WellFormed(s)
    && (counted || forall k: nat :: k < INDEXES && s.counters[k].lost > 0 ==> Marked(s, k))
  }

  lemma ExactAsTimePasses(totals: Totals, s0: Hw, s: Hw, t: Hw, ddr: bool, debug: bool)
    requires AllExact(totals, s0, s, ddr, debug) && Evolves(s, t)
    ensures AllExact(totals, s0, t, ddr, debug)
  {
    forall b: nat, i: nat | b < BANKS && i < SLOTS && CellOf(b, i, ddr, debug).Some?
      ensures Exact(totals, CellOf(b, i, ddr, debug).value, s0, t, Index(b, i))
    {
      var k := Index(b, i);
      assert Conserved(s, t, k) && Exact(totals, CellOf(b, i, ddr, debug).value, s0, s, k);
    }
  }

  /** accumulate() on the totals: the payload is added, or for a maximum compared. */
  function Accumulated(totals: Totals, c: Cell, k: nat, payload: nat): Totals
    requires c in totals
  {
    totals[c := if IsMaximum(k) then Max(totals[c], payload) else (totals[c] + payload) % WORD64]
  }

  lemma AddModulo(a: nat, b: nat)
    ensures (a % WORD64 + b) % WORD64 == (a + b) % WORD64
  {}

  /** Handing over a captured word and accumulating its payload keeps every total exact. */
  lemma ExactWhenTaken(totals: Totals, s0: Hw, s: Hw, bank: nat, slot: nat, ddr: bool, debug: bool)
    requires AllExact(totals, s0, s, ddr, debug) && bank < BANKS && slot < SLOTS
    requires s.mail[bank].ready && s.mail[bank].pending == slot
    requires CellOf(bank, slot, ddr, debug).Some?
    ensures var c := CellOf(bank, slot, ddr, debug).value;
      c in totals
      && AllExact(Accumulated(totals, c, Index(bank, slot), s.mail[bank].held), s0, Taken(s, bank), ddr, debug)
  {
    assert Exact(totals, CellOf(bank, slot, ddr, debug).value, s0, s, Index(bank, slot));
    TakenStaysWellFormed(s, bank);
    forall b: nat, i: nat | b < BANKS && i < SLOTS && CellOf(b, i, ddr, debug).Some?
      ensures Exact(Accumulated(totals, CellOf(bank, slot, ddr, debug).value, Index(bank, slot), s.mail[bank].held),
                    CellOf(b, i, ddr, debug).value, s0, Taken(s, bank), Index(b, i))
    {
      EachWhenTaken(totals, s0, s, bank, slot, ddr, debug, b, i);
    }
  }

  lemma EachWhenTaken(totals: Totals, s0: Hw, s: Hw, bank: nat, slot: nat, ddr: bool, debug: bool, b: nat, i: nat)
    requires AllExact(totals, s0, s, ddr, debug) && bank < BANKS && slot < SLOTS && b < BANKS && i < SLOTS
    requires s.mail[bank].ready && s.mail[bank].pending == slot
    requires CellOf(bank, slot, ddr, debug).Some? && CellOf(b, i, ddr, debug).Some?
    ensures CellOf(bank, slot, ddr, debug).value in totals && WellFormed(Taken(s, bank))
    ensures Exact(Accumulated(totals, CellOf(bank, slot, ddr, debug).value, Index(bank, slot), s.mail[bank].held),
                  CellOf(b, i, ddr, debug).value, s0, Taken(s, bank), Index(b, i))
  {
    var c := CellOf(bank, slot, ddr, debug).value;
    assert Exact(totals, c, s0, s, Index(bank, slot));
    assert Exact(totals, CellOf(b, i, ddr, debug).value, s0, s, Index(b, i));
    if b == bank && i == slot {
      OneTaken(totals, s0, s, bank, slot, c);
    } else {
      if CellOf(b, i, ddr, debug).value == c { CellsAreDistinct(b, i, bank, slot, ddr, debug); }
      OtherTaken(s, bank, slot, Index(b, i));
    }
  }

  lemma TakenStaysWellFormed(s: Hw, bank: nat)
    requires WellFormed(s) && bank < BANKS
    ensures WellFormed(Taken(s, bank))
  {}

  /** Handing over one counter leaves the others as they are. */
  lemma OtherTaken(s: Hw, bank: nat, slot: nat, k: nat)
    requires WellFormed(s) && bank < BANKS && slot < SLOTS && k < INDEXES && k != Index(bank, slot)
    requires s.mail[bank].ready && s.mail[bank].pending == slot
    ensures var t := Taken(s, bank);
            && WellFormed(t) && t.counters[k] == s.counters[k]
            && Outstanding(t, k) == Outstanding(s, k) && Highest(t, k) == Highest(s, k)
  {
    assert k / SLOTS != bank || k % SLOTS != slot;
  }

  /** What handing over does to the counter that was captured. */
  lemma SelfTaken(s: Hw, bank: nat, slot: nat)
    requires WellFormed(s) && bank < BANKS && slot < SLOTS
    requires s.mail[bank].ready && s.mail[bank].pending == slot
    ensures var k, t, held := Index(bank, slot), Taken(s, bank), s.mail[bank].held;
            && WellFormed(t) && Outstanding(t, k) == Outstanding(s, k) - held
            && t.counters[k] == s.counters[k].(taken := Max(s.counters[k].taken, held))
            && Reach(t, k) == Reach(s, k)
  {}

  lemma OneTaken(totals: Totals, s0: Hw, s: Hw, bank: nat, slot: nat, c: Cell)
    requires WellFormed(s0) && WellFormed(s) && bank < BANKS && slot < SLOTS
    requires s.mail[bank].ready && s.mail[bank].pending == slot
    requires Exact(totals, c, s0, s, Index(bank, slot))
    ensures Exact(Accumulated(totals, c, Index(bank, slot), s.mail[bank].held), c, s0, Taken(s, bank),
                  Index(bank, slot))
  {
    var k, t, held := Index(bank, slot), Taken(s, bank), s.mail[bank].held;
    SelfTaken(s, bank, slot);
    if !IsMaximum(k) {
      AddModulo(Outstanding(s0, k) + s.counters[k].events - Outstanding(s, k), held);
    }
  }

  lemma LossesWhenTaken(s: Hw, bank: nat, counted: bool)
    requires LossesVisible(s, counted) && bank < BANKS && s.mail[bank].ready
    ensures LossesVisible(Taken(s, bank), counted || s.mail[bank].heldOverflow)
  {
    var t := Taken(s, bank);
    if !counted && !s.mail[bank].heldOverflow {
      forall k: nat | k < INDEXES && t.counters[k].lost > 0 ensures Marked(t, k) {
        assert Marked(s, k);
      }
    }
  }

  lemma LossesAsTimePasses(s: Hw, t: Hw, counted: bool)
    requires LossesVisible(s, counted) && Evolves(s, t)
    ensures LossesVisible(t, counted)
  {
    if !counted {
      forall k: nat | k < INDEXES && t.counters[k].lost > 0 ensures Marked(t, k) {
        assert Conserved(s, t, k);
      }
    }
  }

  /** Recording of events, losses and samples starts with the firmware. */
  predicate Fresh(s: Hw) {
    && WellFormed(s)
    && forall k :: 0 <= k < INDEXES ==>
         s.counters[k].events == 0 && s.counters[k].lost == 0 && s.counters[k].peak == 0 && s.counters[k].taken == 0
  }

  function ZeroTotals(): Totals {
    (map p: nat, c: nat | p < 6 && c < 8 :: Port(p, c) := 0)
    + (map m: nat, c: nat | m < 4 && c < 8 :: Ddr(m, c) := 0)
    + (map c: nat | c < 16 :: Debug(c) := 0)
  }

  lemma ExactAtStart(s: Hw, ddr: bool, debug: bool)
    requires Fresh(s)
    ensures AllExact(ZeroTotals(), s, s, ddr, debug) && LossesVisible(s, false)
  {
    forall b: nat, i: nat | b < BANKS && i < SLOTS && CellOf(b, i, ddr, debug).Some?
      ensures Exact(ZeroTotals(), CellOf(b, i, ddr, debug).value, s, s, Index(b, i))
    {
      CellsAreDistinct(b, i, b, i, ddr, debug);
    }
  }

  lemma Waited(totals: Totals, counted: bool, start: Hw, s: Hw, mid: Hw, t: Hw, ddr: bool, debug: bool)
    requires AllExact(totals, start, s, ddr, debug) && LossesVisible(s, counted)
    requires Evolves(s, mid) && Evolves(mid, t)
    ensures AllExact(totals, start, t, ddr, debug) && LossesVisible(t, counted)
  {
    EvolvesTransitive(s, mid, t);
    ExactAsTimePasses(totals, start, s, t, ddr, debug);
    LossesAsTimePasses(s, t, counted);
  }

  lemma Collected(totals: Totals, counted: bool, start: Hw, s: Hw, mid: Hw, t: Hw, bank: nat, slot: nat, ddr: bool,
                  debug: bool)
    requires AllExact(totals, start, s, ddr, debug) && LossesVisible(s, counted)
    requires bank < BANKS && slot < SLOTS && CellOf(bank, slot, ddr, debug).Some?
    requires Evolves(s, mid) && mid.mail[bank].ready && mid.mail[bank].pending == slot && Evolves(Taken(mid, bank), t)
    ensures var v, c := Word(mid.mail[bank]), CellOf(bank, slot, ddr, debug).value;
      && c in totals
      && AllExact(Accumulated(totals, c, Index(bank, slot), v % SATURATED), start, t, ddr, debug)
      && LossesVisible(t, counted || v >= SATURATED)
  {
    var c, held := CellOf(bank, slot, ddr, debug).value, mid.mail[bank].held;
    ExactAsTimePasses(totals, start, s, mid, ddr, debug);
    LossesAsTimePasses(s, mid, counted);
    ExactWhenTaken(totals, start, mid, bank, slot, ddr, debug);
    LossesWhenTaken(mid, bank, counted);
    ExactAsTimePasses(Accumulated(totals, c, Index(bank, slot), held), start, Taken(mid, bank), t, ddr, debug);
    LossesAsTimePasses(Taken(mid, bank), t, counted || mid.mail[bank].heldOverflow);
    WordPayload(mid, bank);
  }

  lemma WordPayload(s: Hw, bank: nat)
    requires WellFormed(s) && bank < BANKS
    ensures Word(s.mail[bank]) % SATURATED == s.mail[bank].held
    ensures Word(s.mail[bank]) >= SATURATED <==> s.mail[bank].heldOverflow
  {
  }

  /** What exactness says of a sum that never saturated: the total, the hardware residue and the
      captured but unread value together are the initial ones plus every event. */
  lemma TotalsAccountForEveryEvent(totals: Totals, s0: Hw, s: Hw, b: nat, i: nat, ddr: bool, debug: bool)
    requires AllExact(totals, s0, s, ddr, debug) && Fresh(s0) && b < BANKS && i < SLOTS
    requires CellOf(b, i, ddr, debug).Some? && !IsMaximum(Index(b, i)) && s.counters[Index(b, i)].lost == 0
    ensures var c, k := CellOf(b, i, ddr, debug).value, Index(b, i);
      c in totals &&
      (totals[c] + s.counters[k].residue + InMail(s, k)) % WORD64
      == (s0.counters[k].residue + InMail(s0, k) + s.counters[k].events) % WORD64
  {
    var c, k := CellOf(b, i, ddr, debug).value, Index(b, i);
    assert Exact(totals, c, s0, s, k);
    AddModulo(Outstanding(s0, k) + s.counters[k].events - Outstanding(s, k), s.counters[k].residue + InMail(s, k));
  }

  /** A sum that is up to date with state s holds at least all that the counter had counted by s. */
  lemma TotalsAreCurrent(totals: Totals, s0: Hw, s: Hw, t: Hw, b: nat, i: nat, ddr: bool, debug: bool) returns (n: nat)
    requires AllExact(totals, s0, t, ddr, debug) && WellFormed(s) && b < BANKS && i < SLOTS
    requires CellOf(b, i, ddr, debug).Some? && !IsMaximum(Index(b, i)) && UpToDate(s, t, Index(b, i))
    ensures CellOf(b, i, ddr, debug).value in totals && totals[CellOf(b, i, ddr, debug).value] == n % WORD64
    ensures n >= Outstanding(s0, Index(b, i)) + s.counters[Index(b, i)].events - s.counters[Index(b, i)].lost
  {
    var k := Index(b, i);
    assert Exact(totals, CellOf(b, i, ddr, debug).value, s0, t, k);
    n := Outstanding(s0, k) + t.counters[k].events - Outstanding(t, k);
  }

  /** Likewise a maximum is at least the largest sample by then, and never more than the largest so far. */
  lemma MaximaAreCurrent(before: Totals, totals: Totals, s0: Hw, s: Hw, t: Hw, b: nat, i: nat, ddr: bool, debug: bool)
    requires AllExact(before, s0, s, ddr, debug) && AllExact(totals, s0, t, ddr, debug)
    requires b < BANKS && i < SLOTS && CellOf(b, i, ddr, debug).Some? && IsMaximum(Index(b, i))
             && UpToDate(s, t, Index(b, i))
    ensures var c, k := CellOf(b, i, ddr, debug).value, Index(b, i);
      c in totals && Max(Highest(s0, k), s.counters[k].peak) <= totals[c] <= Max(Highest(s0, k), t.counters[k].peak)
  {
    var c := CellOf(b, i, ddr, debug).value;
    assert Exact(before, c, s0, s, Index(b, i)) && Exact(totals, c, s0, t, Index(b, i));
  }

  // ----- time-out tables

  function Sum(table: seq<nat>): nat {
    if table == [] then 0 else Sum(table[..|table| - 1]) + table[|table| - 1]
  }

  /** One entry of a table of 32-bit counters goes up by one. */
  function Bump(table: seq<nat>, k: nat): seq<nat>
    requires k < |table|
  {
    table[k := (table[k] + 1) % WORD32]
  }

  /** Modulo 2^32 the sum of such a table counts every bump, although its entries wrap. */
  lemma {:induction false} SumOfBump(table: seq<nat>, k: nat)
    requires k < |table|
    ensures Sum(Bump(table, k)) % WORD32 == (Sum(table) + 1) % WORD32
  {
    var n := |table| - 1;
    if k == n {
      assert Bump(table, k)[..n] == table[..n];
      WrapInSum(Sum(table[..n]), table[n] + 1);
    } else {
      SumOfBump(table[..n], k);
      assert Bump(table, k)[..n] == Bump(table[..n], k);
      SameSum(Sum(Bump(table[..n], k)), Sum(table[..n]) + 1, table[n]);
    }
  }

  lemma WrapInSum(a: nat, b: nat)
    ensures (a + b % WORD32) % WORD32 == (a + b) % WORD32
  {
  }

  lemma SameSum(a: nat, b: nat, c: nat)
    requires a % WORD32 == b % WORD32
    ensures (a + c) % WORD32 == (b + c) % WORD32
  {
  }

  lemma {:induction false} SumOfZeros(n: nat)
    ensures Sum(seq(n, _ => 0)) == 0
  {
    if n > 0 {
      SumOfZeros(n - 1);
      assert seq(n, _ => 0)[..n - 1] == seq(n - 1, _ => 0);
    }
  }

  /** The time-out counters: all, the two classes, each class by index, and the last indexes, SENTINEL as
      long as there was none. */
  datatype Books = Books(count: nat, releases: nat, responses: nat, releaseBy: seq<nat>, responseBy: seq<nat>,
                         lastRelease: nat, lastReleaseTarget: nat, lastResponse: nat)
  {
    /** The counters agree with each other, modulo their 32 bits. */
    predicate Balanced() {
      && |releaseBy| == INDEXES && |responseBy| == INDEXES
      && count == (releases + responses) % WORD32
      && releases == Sum(releaseBy) % WORD32 && responses == Sum(responseBy) % WORD32
    }

    function WithRelease(held: nat, target: nat): Books
      requires held < |releaseBy|
    {
      this.(count := (count + 1) % WORD32, releases := (releases + 1) % WORD32,
            lastRelease := held, lastReleaseTarget := target, releaseBy := Bump(releaseBy, held))
    }

    function WithResponse(target: nat): Books
      requires target < |responseBy|
    {
      this.(count := (count + 1) % WORD32, responses := (responses + 1) % WORD32,
            lastResponse := target, responseBy := Bump(responseBy, target))
    }
  }

  function NoTimeouts(): Books {
    Books(0, 0, 0, seq(INDEXES, _ => 0), seq(INDEXES, _ => 0), SENTINEL, SENTINEL, SENTINEL)
  }

  lemma NoTimeoutsBalance()
    ensures NoTimeouts().Balanced()
  {
    SumOfZeros(INDEXES);
  }

  /** One more in a class and in its table. */
  lemma ClassStaysBalanced(n: nat, table: seq<nat>, k: nat)
    requires n == Sum(table) % WORD32 && k < |table|
    ensures (n + 1) % WORD32 == Sum(Bump(table, k)) % WORD32
  {
    SumOfBump(table, k);
    WrapInSum(1, Sum(table));
  }

  /** A time-out counted in either class keeps the books balanced. */
  lemma StaysBalanced(b: Books, held: nat, target: nat)
    requires b.Balanced() && held < INDEXES && target < INDEXES
    ensures b.WithRelease(held, target).Balanced() && b.WithResponse(target).Balanced()
  {
    CountOne(b.releases, b.responses);
    CountOne(b.responses, b.releases);
    ClassStaysBalanced(b.releases, b.releaseBy, held);
    ClassStaysBalanced(b.responses, b.responseBy, target);
  }

  lemma CountOne(a: nat, b: nat)
    ensures ((a + b) % WORD32 + 1) % WORD32 == ((a + 1) % WORD32 + b) % WORD32
  {}

  // ----- the collector

  class Collector {
    const hw: Registers
    const ddr: bool
    const debug: bool
    ghost const start: Hw          // the hardware as this firmware run found it
    var totals: Totals
    var saturatedReads: nat
    ghost var counted: bool        // some saturated word was counted
    var state: seq<nat>            // 0 absent, 1 current, 2 clock unavailable, 3 active fault, 4 not sampled
    var unavailableEvents: seq<nat>
    var activeTimeouts: seq<nat>
    var books: Books

    ghost predicate Booked()
      reads this
    {
      |state| == BANKS && |unavailableEvents| == BANKS && |activeTimeouts| == BANKS && books.Balanced()
    }

    ghost predicate Valid()
      reads this, hw
    {
      hw.Valid() && Booked() && AllExact(totals, start, hw.s, ddr, debug) && LossesVisible(hw.s, counted)
    }

    constructor (registers: Registers, withDdr: bool, withDebug: bool)
      requires registers.Valid() && Fresh(registers.s)
      ensures Valid() && hw == registers && start == registers.s && ddr == withDdr && debug == withDebug
      ensures saturatedReads == 0 && (forall c :: c in totals ==> totals[c] == 0)
      ensures forall b :: 0 <= b < 13 ==>
                && state[b] == (if b < 8 || (if b < 12 then withDdr else withDebug) then 4 else 0)
                && unavailableEvents[b] == 0 && activeTimeouts[b] == 0
    {
      hw, ddr, debug, start := registers, withDdr, withDebug, registers.s;
      totals, saturatedReads, counted := ZeroTotals(), 0, false;
      state := seq(BANKS, b requires 0 <= b < BANKS => if BankEnabled(b, withDdr, withDebug) then 4 else 0);
      unavailableEvents, activeTimeouts := seq(BANKS, _ => 0), seq(BANKS, _ => 0);
      books := NoTimeouts();
      NoTimeoutsBalance();
      ExactAtStart(registers.s, withDdr, withDebug);
    }

    method Unavailable(bank: nat)
      requires Valid() && bank < BANKS
      modifies this`state, this`unavailableEvents
      ensures Valid() && state == old(state)[bank := 2]
      ensures unavailableEvents == if old(state[bank]) == 2 then old(unavailableEvents)
                                   else Bump(old(unavailableEvents), bank)
    {
      if state[bank] != 2 {
        unavailableEvents := Bump(unavailableEvents, bank);
      }
      state := state[bank := 2];
    }

    /** A DATA read that did not answer. The bank's clock has stopped, or the mailbox was never released, and
        the status names the slot it still holds, or there was no response for the slot asked for. */
    method TimedOut(bank: nat, slot: nat, st: Status)
      requires Valid() && bank < BANKS && slot < SLOTS && st.slot < SLOTS
      modifies this`state, this`unavailableEvents, this`activeTimeouts, this`books
      ensures Valid()
      ensures var stopped := !st.clock || (st.gap && st.pending);
        && state == old(state)[bank := if stopped then 2 else 3]
        && (stopped ==> books == old(books) && activeTimeouts == old(activeTimeouts))
        && (!stopped ==>
              && unavailableEvents == old(unavailableEvents)
              && activeTimeouts == Bump(old(activeTimeouts), bank))
        && (!stopped ==>
              books == if !st.pending && st.release then old(books).WithRelease(Index(bank, st.slot), Index(bank, slot))
                       else old(books).WithResponse(Index(bank, slot)))
    {
      if !st.clock || (st.gap && st.pending) {
        Unavailable(bank);
      } else {
        StaysBalanced(books, Index(bank, st.slot), Index(bank, slot));
        state := state[bank := 3];
        activeTimeouts := Bump(activeTimeouts, bank);
        books := if !st.pending && st.release then books.WithRelease(Index(bank, st.slot), Index(bank, slot))
                 else books.WithResponse(Index(bank, slot));
      }
    }

    /** accumulate(): count a saturated word, then add or compare its 31-bit payload. */
    method Accumulate(bank: nat, slot: nat, v: nat)
      requires hw.Valid() && Booked()
      requires bank < BANKS && slot < SLOTS && CellOf(bank, slot, ddr, debug).Some?
      requires CellOf(bank, slot, ddr, debug).value in totals
      requires AllExact(Accumulated(totals, CellOf(bank, slot, ddr, debug).value, Index(bank, slot), v % SATURATED),
                        start, hw.s, ddr, debug)
      requires LossesVisible(hw.s, counted || v >= SATURATED)
      modifies this
      ensures Valid()
      ensures state == old(state)
      ensures saturatedReads == if v >= SATURATED then (old(saturatedReads) + 1) % WORD32 else old(saturatedReads)
    {
      var cell := CellOf(bank, slot, ddr, debug).value;
      if v >= SATURATED {
        saturatedReads, counted := (saturatedReads + 1) % WORD32, true;
      }
      var payload := v % SATURATED;
      if 8 <= bank < 12 && slot == 3 {
        if payload > totals[cell] { totals := totals[cell := payload]; }
      } else {
        totals := totals[cell := (totals[cell] + payload) % WORD64];
      }
      assert totals == Accumulated(old(totals), cell, Index(bank, slot), payload);
    }

    /** Select a bank and slot and read the bank's status. */
    method Probe(bank: nat, slot: nat) returns (st: Status)
      requires Valid() && bank < BANKS && slot < SLOTS
      modifies hw
      ensures Valid() && hw.bank == bank && hw.slot == slot && Evolves(old(hw.s), hw.s)
      ensures forall b :: 0 <= b < BANKS ==> hw.s.mail[b].pending == old(hw.s).mail[b].pending
      ensures st.pending <==> hw.s.mail[bank].pending >= 0
      ensures st.pending ==> st.slot == hw.s.mail[bank].pending
      ensures hw.prompt ==> st.clock
    {
      ghost var s0 := hw.s;
      hw.Select(bank, slot);
      ghost var s1 := hw.s;
      st := hw.ReadStatus();
      EvolvesTransitive(s0, s1, hw.s);
      Waited(totals, counted, start, s0, s1, hw.s, ddr, debug);
    }

    method ReadCounter(bank: nat, slot: nat) returns (ok: bool)
      requires Valid() && bank < BANKS && slot < BankSlots(bank) && BankEnabled(bank, ddr, debug)
      requires Retains(hw.s, bank, slot)
      modifies this, hw
      ensures Valid()
      ensures (hw.prompt ==> ok) && (if ok then hw.s.mail[bank].pending == -1 else Retains(hw.s, bank, slot))
      ensures forall b :: 0 <= b < BANKS && b != bank ==> hw.s.mail[b].pending == old(hw.s).mail[b].pending
      ensures PaidDown(old(hw.s), hw.s)
      ensures ok && old(hw.s.mail[bank].pending) == -1 ==> UpToDate(old(hw.s), hw.s, Index(bank, slot))
      ensures if ok then state == old(state) else state[bank] in {2, 3} && state == old(state)[bank := state[bank]]
    {
      ghost var s0 := hw.s;
      var st := Probe(bank, slot);
      EvolvesPays(s0, hw.s);
      ghost var s1 := hw.s;
      if !st.clock && !st.ready { Unavailable(bank); return false; }
      var v;
      v, st := Fetch(bank, slot);
      PaidDownTransitive(s0, s1, hw.s);
      if v == SENTINEL {
        TimedOut(bank, slot, st);
        return false;
      }
      StaysUpToDate(s0, s1, hw.s, Index(bank, slot));
      Accumulate(bank, slot, v);
      return true;
    }

    /** The DATA read and the status read after it; a word read is still to be accumulated. */
    method Fetch(bank: nat, slot: nat) returns (v: nat, st: Status)
      requires Valid() && bank < BANKS && slot < SLOTS && CellOf(bank, slot, ddr, debug).Some?
      requires hw.bank == bank && hw.slot == slot && Retains(hw.s, bank, slot)
      modifies hw
      ensures hw.Valid()
      ensures forall b :: 0 <= b < BANKS && b != bank ==> hw.s.mail[b].pending == old(hw.s).mail[b].pending
      ensures v == SENTINEL ==> Valid() && !hw.prompt && Retains(hw.s, bank, slot)
      ensures v != SENTINEL ==>
        && hw.s.mail[bank].pending == -1
        && CellOf(bank, slot, ddr, debug).value in totals
        && AllExact(Accumulated(totals, CellOf(bank, slot, ddr, debug).value, Index(bank, slot), v % SATURATED),
                    start, hw.s, ddr, debug)
        && LossesVisible(hw.s, counted || v >= SATURATED)
      ensures PaidDown(old(hw.s), hw.s) && st.slot < SLOTS
      ensures v != SENTINEL && old(hw.s.mail[bank].pending) == -1 ==> UpToDate(old(hw.s), hw.s, Index(bank, slot))
    {
      ghost var s0 := hw.s;
      v := hw.ReadData();
      ghost var s1 := hw.s;
      st := hw.ReadStatus();
      if v == SENTINEL {
        Waited(totals, counted, start, s0, s1, hw.s, ddr, debug);
        EvolvesTransitive(s0, s1, hw.s);
        EvolvesPays(s0, hw.s);
      } else {
        ghost var mid :| Evolves(s0, mid) && mid.mail[bank].ready && mid.mail[bank].pending == slot
          && v == Word(mid.mail[bank]) && s1 == Taken(mid, bank);
        Collected(totals, counted, start, s0, mid, hw.s, bank, slot, ddr, debug);
        TakenPays(s0, mid, hw.s, bank);
        if s0.mail[bank].pending == -1 {
          AnsweredIsUpToDate(s0, mid, hw.s, bank, slot);
        }
      }
    }

    /** A retained slot is authoritative: it is drained before a new scan. */
    method Drain(bank: nat) returns (drained: bool)
      requires Valid() && bank < BANKS && BankEnabled(bank, ddr, debug)
      modifies this, hw
      ensures Valid() && PaidDown(old(hw.s), hw.s) && (old(InRange(hw.s)) ==> InRange(hw.s) && (hw.prompt ==> drained))
      ensures drained ==> hw.s.mail[bank].pending == -1 && state == old(state)
      ensures !drained ==> state == old(state)[bank := state[bank]] && (state[bank] in {2, 3} || state == old(state))
    {
      ghost var s0 := hw.s;
      var st := Probe(bank, 0);
      EvolvesPays(s0, hw.s);
      if st.pending {
        if st.slot >= BankSlots(bank) { return false; }
        ghost var s1 := hw.s;
        drained := ReadCounter(bank, st.slot);
        PaidDownTransitive(s0, s1, hw.s);
      } else {
        drained := true;
      }
    }

    /** A bank that is marked current has every sum and maximum complete up to the start of this call. */
    method CollectBank(bank: nat) returns (ghost done: bool)
      requires Valid() && bank < BANKS && BankEnabled(bank, ddr, debug)
      modifies this, hw
      ensures Valid() && PaidDown(old(hw.s), hw.s) && (old(InRange(hw.s)) ==> InRange(hw.s) && (hw.prompt ==> done))
      ensures done ==> state == old(state)[bank := 1] && hw.s.mail[bank].pending == -1
      ensures done ==> forall i :: 0 <= i < BankSlots(bank) ==> UpToDate(old(hw.s), hw.s, Index(bank, i))
      ensures !done ==> state == old(state)[bank := state[bank]] && (state[bank] in {2, 3} || state == old(state))
    {
      done := false;
      ghost var s0 := hw.s;
      var drained := Drain(bank);
      if !drained { return; }
      for slot := 0 to BankSlots(bank)
        invariant Valid() && hw.s.mail[bank].pending == -1 && state == old(state)
        invariant PaidDown(s0, hw.s) && (old(InRange(hw.s)) ==> InRange(hw.s))
        invariant forall i :: 0 <= i < slot ==> UpToDate(s0, hw.s, Index(bank, i))
      {
        ghost var s1 := hw.s;
        var ok := ReadCounter(bank, slot);
        PaidDownTransitive(s0, s1, hw.s);
        if !ok { return; }
        forall i | 0 <= i <= slot ensures UpToDate(s0, hw.s, Index(bank, i)) {
          StaysUpToDate(s0, s1, hw.s, Index(bank, i));
        }
      }
      state := state[bank := 1];
      done := true;
    }

    /** All of a bank's sums and maxima are complete up to state s. */
    ghost predicate Current(s: Hw, bank: nat)
      requires WellFormed(s) && WellFormed(hw.s) && bank < BANKS
      reads this, hw
    {
      |state| == BANKS && state[bank] == 1 && forall i :: 0 <= i < BankSlots(bank) ==> UpToDate(s, hw.s, Index(bank, i))
    }

    /** One poll over all banks. On hardware that answers, every bank is then current. */
    method Poll()
      requires Valid()
      modifies this, hw
      ensures Valid() && PaidDown(old(hw.s), hw.s) && (old(InRange(hw.s)) ==> InRange(hw.s))
      ensures hw.prompt && old(InRange(hw.s)) ==>
        forall b :: 0 <= b < BANKS && BankEnabled(b, ddr, debug) ==> Current(old(hw.s), b)
    {
      ghost var s0 := hw.s;
      EvolvesReflexive(s0);
      EvolvesPays(s0, s0);
      for bank := 0 to BANKS
        invariant Valid() && PaidDown(s0, hw.s) && (old(InRange(hw.s)) ==> InRange(hw.s))
        invariant hw.prompt && old(InRange(hw.s)) ==>
          forall b :: 0 <= b < bank && BankEnabled(b, ddr, debug) ==> Current(s0, b)
      {
        if BankEnabled(bank, ddr, debug) {
          ghost var s1 := hw.s;
          var _ := CollectBank(bank);
          PaidDownTransitive(s0, s1, hw.s);
          forall b, i | 0 <= b <= bank && 0 <= i < BankSlots(b)
            ensures UpToDate(s0, s1, Index(b, i)) || UpToDate(s1, hw.s, Index(b, i)) ==> UpToDate(s0, hw.s, Index(b, i))
          {
            StaysUpToDate(s0, s1, hw.s, Index(b, i));
          }
        }
      }
    }

    /** One turn of the task: a poll if the interface was recognised, then time passes. */
    method Turn(available: bool)
      requires Valid()
      modifies this, hw
      ensures Valid() && PaidDown(old(hw.s), hw.s) && (old(InRange(hw.s)) ==> InRange(hw.s))
      ensures available && hw.prompt && old(InRange(hw.s)) ==>
        forall b :: 0 <= b < BANKS && BankEnabled(b, ddr, debug) ==> Current(old(hw.s), b)
    {
      ghost var before := hw.s;
      EvolvesReflexive(before);
      EvolvesPays(before, before);
      if available {
        Poll();
      }
      ghost var polled := hw.s;
      EvolvesReflexive(polled);
      hw.Tick();
      Waited(totals, counted, start, polled, polled, hw.s, ddr, debug);
      EvolvesPays(polled, hw.s);
      PaidDownTransitive(before, polled, hw.s);
      forall b, i | 0 <= b < BANKS && 0 <= i < BankSlots(b)
        ensures UpToDate(before, polled, Index(b, i)) ==> UpToDate(before, hw.s, Index(b, i))
      {
        StaysUpToDate(before, polled, hw.s, Index(b, i));
      }
    }

    lemma CurrentSince(s: Hw, t: Hw, bank: nat)
      requires PaidDown(s, t) && PaidDown(t, hw.s) && bank < BANKS && Current(t, bank)
      ensures Current(s, bank)
    {
      forall i | 0 <= i < BankSlots(bank) ensures UpToDate(s, hw.s, Index(bank, i)) {
        StaysUpToDate(s, t, hw.s, Index(bank, i));
      }
    }

    /** The task: any number of polls, with hardware free to run between them. Every total is
        exact after each, whatever stopped or timed out, and no DATA read ever named a slot
        other than the pending one. On hardware that answers, nothing counted before is missing. */
    method Task(polls: nat, available: bool)
      requires Valid()
      modifies this, hw
      ensures Valid() && Published(totals, start, hw.s, ddr, debug)
      ensures available && polls > 0 && hw.prompt && old(InRange(hw.s)) ==>
        forall b :: 0 <= b < BANKS && BankEnabled(b, ddr, debug) ==> Current(old(hw.s), b)
    {
      ghost var s0 := hw.s;
      EvolvesReflexive(s0);
      EvolvesPays(s0, s0);
      for poll := 0 to polls
        invariant Valid() && PaidDown(s0, hw.s) && (old(InRange(hw.s)) ==> InRange(hw.s))
        invariant available && poll > 0 && hw.prompt && old(InRange(hw.s)) ==>
          forall b :: 0 <= b < BANKS && BankEnabled(b, ddr, debug) ==> Current(s0, b)
      {
        ghost var s1 := hw.s;
        Turn(available);
        PaidDownTransitive(s0, s1, hw.s);
        forall b | 0 <= b < BANKS && Current(s1, b) ensures Current(s0, b) {
          CurrentSince(s0, s1, b);
        }
      }
      ExactIsPublished(totals, start, hw.s, ddr, debug);
    }
  }
}
