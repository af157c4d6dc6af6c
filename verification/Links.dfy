/**
 The link service. One poll observes the PHYs, quiesces ports that must change, admits or removes
 ports from the switching fabric, and retunes ports that are out of service.

 The board's registers are an object of their own. What is guaranteed of a disruptive write is a
 precondition of that write, so every call below is a proof that it holds. Other tasks run between
 the clock sample, the removal and the retuning of one poll: time passes, flushes start and end.
 Ports 0 and 1 are the GEMs, 2 and 3 the programmable-logic MACs, 4 is the SFP.
*/
module Links {
  import opened Common

  const SETTLE: nat := 250
  const SFP: nat := 4

  /** What a copper PHY advertises. */
  datatype Abilities = Abilities(ten: bool, hundred: bool, gigabit: bool)

  /** A snapshot of what the configuration asks for. */
  datatype Request = Request(admin: set<nat>, advertise: seq<Abilities>, sfp: nat)

  /** What goes on beside the service for took milliseconds: whether the fabric is flushing at the end,
      whether another task latched the control fault, whether and how far into that time the links were
      cut after a DMA fault, and the ports that spanning tree lets forward. */
  datatype Others = Others(took: nat, busy: bool, fault: bool, cut: Option<nat>, open: set<nat>)
  {
    /** How long ago the links were cut, at the end. */
    function SinceCut(): (n: nat)
      ensures n <= took
    {
      if cut.Some? && cut.value <= took then took - cut.value else 0
    }
  }

  /** How a removal goes. It first waits for the lock and for an idle fabric, late milliseconds in all.
      Then it either clears the links and waits again, or gives up. */
  datatype Removal = Removed(late: nat, rest: nat, flushed: bool) | Stuck(late: nat)

  /** What one poll meets: the time up to its clock sample, the resolved rate of each copper PHY, if
      its report is valid, the SFP and DMA status, how a removal goes, the time up to the retuning,
      and whether a PHY restart succeeds. */
  datatype Readings = Readings(before: Others, phy: seq<Option<nat>>, sfpUp: bool, dualRate: bool, moduleAbsent: bool,
                               healthy: bool, removal: Removal, after: Others, restartOk: seq<bool>)

  predicate WellFormed(req: Request, env: Readings) {
    |req.advertise| == 4 && |env.phy| == 4 && |env.restartOk| == 4
  }

  // ----- wrap-safe timers

  /** Unsigned 32-bit subtraction of two millisecond counters. */
  function Elapsed(now: nat, since: nat): nat {
    (now - since) % WORD32
  }

  lemma SameResidue(a: int, b: int, k: int)
    requires a == b + k * WORD32
    ensures a % WORD32 == b % WORD32
  {
  }

  /** Counters that wrapped any number of times still give the elapsed time modulo 2^32. */
  lemma ElapsedOfWrapped(t: nat, c: nat)
    requires c <= t
    ensures Elapsed(t % WORD32, c % WORD32) == (t - c) % WORD32
  {
    SameResidue(t - c, t % WORD32 - c % WORD32, t / WORD32 - c / WORD32);
  }

  /** Two clock samples never make the timer fire early. It reads as not elapsed again for a moment
      after every whole period. */
  lemma NeverEarly(t: nat, c: nat, d: nat)
    requires c <= t && d < WORD32
    ensures Elapsed(t % WORD32, c % WORD32) >= d ==> t - c >= d
    ensures t - c < WORD32 ==> (Elapsed(t % WORD32, c % WORD32) >= d <==> t - c >= d)
    ensures Elapsed(t % WORD32, c % WORD32) >= d <==> (t - c) % WORD32 >= d
  {
    ElapsedOfWrapped(t, c);
  }

  /** The gate of link_update, at time t, after a poll that sampled its clock at c and removed a port. */
  predicate GateOpens(c: nat, t: nat) {
    Elapsed(t % WORD32, c % WORD32) >= SETTLE
  }

  /** The port is only removed late milliseconds after the sample. Within the first counter period the
      gate opens too soon after the removal exactly when t falls into those milliseconds. */
  lemma OldEnoughIff(c: nat, late: nat, t: nat)
    requires c + late <= t < c + WORD32
    ensures (GateOpens(c, t) ==> t - (c + late) >= 250) <==> (t - c < 250 || t - c >= 250 + late)
  {
    NeverEarly(t, c, SETTLE);
  }

  /** The gate gives every removal its 250 ms, whenever the later poll comes, if and only if the removal
      was not late, or late by whole counter periods. */
  lemma AlwaysOldEnoughIff(c: nat, late: nat)
    ensures (forall t: nat :: c + late <= t && GateOpens(c, t) ==> t - (c + late) >= 250) <==> late % 0x1_0000_0000 == 0
  {
    var r := late % WORD32;
    if r == 0 {
      forall t: nat | c + late <= t && GateOpens(c, t) ensures t - (c + late) >= SETTLE {
        NeverEarly(t, c, SETTLE);
        SameResidue(t - c, t - (c + late), late / WORD32);
      }
    } else {
      var wait := if r >= SETTLE then 0 else SETTLE - r;
      var t := c + late + wait;
      NeverEarly(t, c, SETTLE);
      SameResidue(t - c, r + wait, late / WORD32);
      assert GateOpens(c, t) && t - (c + late) < SETTLE;
    }
  }

  // ----- the board

  function Mode(speed: nat): nat {
    if speed == 1000 then 2 else if speed == 100 then 1 else 0
  }

  /** The switching fabric and its control block, in time that does not wrap. */
  datatype Fabric = Fabric(
    time: nat, busy: bool,              // busy: a flush is under way
    failed: bool, cut: bool,            // the control fault; the links cut after a DMA fault
    link: set<nat>, open: set<nat>,     // the levels of LINK_SET and LINK_CLR, of FWD_SET and FWD_CLR
    sampledAt: nat, sampledBusy: bool,  // what the poll under way sampled
    clearAt: nat,                       // the sample of the last poll that removed a port
    removedAt: nat,                     // when links were last removed, by a poll or by a cut
    removals: nat,                      // how many polls removed a port
    clearedAt: map<nat, nat>)           // clearAt for each port
  {
    predicate Valid() {
      && clearAt <= sampledAt <= time && clearAt <= removedAt <= time
      && (forall p :: p in clearedAt ==> clearedAt[p] <= clearAt)
      && (failed ==> open == {})
    }

    predicate Forwards(p: nat) { p in link && p in open }

    /** What one would like: the fabric is idle and has had its interval since the last removal. */
    predicate Idle() { !busy && removedAt + 250 <= time }

    /** What the service makes sure of: both were so by the samples this poll took. */
    predicate Gated() { !sampledBusy && clearAt + 250 <= sampledAt }

    /** The poll under way found the gate of link_update open. */
    predicate CameThrough() { !sampledBusy && GateOpens(clearAt, sampledAt) }

    /** A whole interval lies between the sample of the poll that removed the port and this poll's. */
    predicate Rested(p: nat) { p in clearedAt ==> clearedAt[p] + 250 <= sampledAt }

    /** Other tasks run. Once the control fault is latched nothing opens a port again. */
    function After(o: Others): (f: Fabric)
      requires Valid()
      ensures f.Valid()
    {
      var fault := failed || o.fault;
      this.(time := time + o.took, busy := o.busy, failed := fault, cut := cut || o.cut.Some?,
            removedAt := if o.cut.Some? then time + o.took - o.SinceCut() else removedAt,
            link := if o.cut.Some? then {} else link, open := if fault then {} else o.open)
    }

    /** The poll samples its clock and the flush flag. */
    function Sampled(): Fabric { this.(sampledAt := time, sampledBusy := busy) }

    /** pstate_link_clear. A removal that gives up leaves the links alone and stops all forwarding. */
    function Cleared(ports: set<nat>, r: Removal): (f: Fabric)
      requires Valid()
      ensures f.Valid() && f.clearAt == sampledAt && forall p :: p in ports ==> !f.Forwards(p)
    {
      var fault := failed || r.Stuck? || !r.flushed;
      this.(time := time + r.late + (if r.Removed? then r.rest else 0),
            busy := r.Stuck? || !r.flushed, failed := fault,
            link := if r.Removed? then link - ports else link, open := if fault then {} else open,
            clearAt := sampledAt, removedAt := time + r.late, removals := removals + 1,
            clearedAt := clearedAt + map p | p in ports :: sampledAt)
    }
  }

  function Boot(): Fabric {
    Fabric(0, false, false, false, {}, {0, 1, 2, 3, 4}, 0, false, 0, 0, 0, map[])
  }

  class Board {
    var f: Fabric
    var on: seq<bool>                // a copper port's MAC is enabled
    var gemSpeed: seq<nat>
    var macMode: seq<nat>
    var phy: seq<Option<Abilities>>  // abilities of the last restart, if it succeeded
    var sfpRate: nat

    predicate Valid()
      reads this
    {
      |on| == 4 && |gemSpeed| == 2 && |macMode| == 2 && |phy| == 4 && f.Valid()
    }

    /** The port does not forward, its MAC is off and the gate is open. */
    predicate Quiet(p: nat)
      requires Valid()
      reads this
    {
      f.Gated() && !f.Forwards(p) && (p < 4 ==> !on[p])
    }

    /** mac_init leaves the logic MACs in gigabit mode and every MAC off. */
    constructor ()
      ensures Valid() && f == Boot()
      ensures macMode == [2, 2] && on == [false, false, false, false] && phy == [None, None, None, None]
      ensures gemSpeed == [1000, 1000] && sfpRate == 10000
    {
      f := Boot();
      on, gemSpeed, macMode := [false, false, false, false], [1000, 1000], [2, 2];
      phy, sfpRate := [None, None, None, None], 10000;
    }

    method Elapse(o: Others)
      requires Valid()
      modifies this`f
      ensures Valid() && f == old(f).After(o)
    {
      f := f.After(o);
    }

    method Sample() returns (now: nat, flushing: bool)
      requires Valid()
      modifies this`f
      ensures Valid() && f == old(f).Sampled() && now == f.time % WORD32 && flushing == f.busy
    {
      f := f.Sampled();
      now, flushing := f.time % WORD32, f.busy;
    }

    method Clear(ports: set<nat>, r: Removal)
      requires Valid()
      modifies this`f
      ensures Valid() && f == old(f).Cleared(ports, r)
    {
      f := f.Cleared(ports, r);
    }

    method Set(ports: set<nat>)
      requires Valid() && f.Gated()
      modifies this`f
      ensures Valid() && f == old(f).(link := old(f).link + ports)
    {
      f := f.(link := f.link + ports);
    }

    method GemControl(i: nat, enable: bool)
      requires Valid() && i < 2
      modifies this`on
      ensures Valid() && on == old(on)[i := enable]
    {
      on := on[i := enable];
    }

    /** A mode may only change on a port that does not forward and has rested. */
    method MacControl(i: nat, mode: nat, enable: bool)
      requires Valid() && i < 2 && (mode != macMode[i] ==> !f.Forwards(i + 2) && f.Rested(i + 2))
      modifies this`on, this`macMode
      ensures Valid() && on == old(on)[i + 2 := enable] && macMode == old(macMode)[i := mode]
    {
      on, macMode := on[i + 2 := enable], macMode[i := mode];
    }

    /** The reference clock and speed of a GEM. */
    method GemSpeed(i: nat, speed: nat)
      requires Valid() && i < 2 && Quiet(i)
      modifies this`gemSpeed
      ensures Valid() && gemSpeed == old(gemSpeed)[i := speed]
    {
      gemSpeed := gemSpeed[i := speed];
    }

    method PhyRestart(p: nat, a: Abilities, ok: bool)
      requires Valid() && p < 4 && Quiet(p)
      modifies this`phy
      ensures Valid() && phy == old(phy)[p := if ok then Some(a) else None]
    {
      phy := phy[p := if ok then Some(a) else None];
    }

    method SfpSwitch(rate: nat)
      requires Valid() && Quiet(SFP)
      modifies this`sfpRate
      ensures Valid() && sfpRate == rate
    {
      sfpRate := rate;
    }
  }

  // ----- pure decisions

  predicate Allows(a: Abilities, speed: nat) {
    if speed == 1000 then a.gigabit else if speed == 100 then a.hundred else a.ten
  }

  /** The rate a copper port resolved to, 0 when it is down or ran outside what was advertised. */
  function Resolve(ready: bool, applied: Abilities, reading: Option<nat>): nat {
    if ready && reading.Some? && Allows(applied, reading.value) then reading.value else 0
  }

  /** A copper port as the service knows it: its PHY is set up, with which abilities, the rate it
      resolved to and the rate its MAC is set for. */
  datatype Port = Port(ready: bool, applied: Abilities, speed: nat, configured: nat)

  /** What a poll observes of a port. A GEM PHY that does not answer is no longer ready. */
  function Seen(q: Port, reading: Option<nat>, gem: bool): Port {
    var r := q.ready && (gem ==> reading.Some?);
    q.(ready := r, speed := Resolve(r, q.applied, reading))
  }

  /** The PHY is set up as requested. */
  predicate AsAsked(q: Port, a: Abilities) { q.ready && q.applied == a }

  /** What retuning makes of a port: it follows the resolved rate, or its PHY is restarted and the rate
      is unknown until it resolves again. */
  function Tuned(q: Port, a: Abilities, ok: bool): Port {
    if AsAsked(q, a) then q.(configured := q.speed) else Port(ok, if ok then a else q.applied, 0, 0)
  }

  /** A copper port belongs in the fabric: it runs as requested, at the rate its MAC is set for. */
  predicate Fit(q: Port, a: Abilities) {
    AsAsked(q, a) && q.configured == q.speed && q.speed != 0
  }

  /** A port after a poll that did or did not retune it. */
  function PortAfter(q: Port, reading: Option<nat>, gem: bool, a: Abilities, ok: bool, retuned: bool): Port {
    var s := Seen(q, reading, gem);
    if retuned then Tuned(s, a, ok) else s
  }

  /** The mode register of a logic MAC after such a poll. */
  function ModeAfter(q: Port, reading: Option<nat>, a: Abilities, retuned: bool): nat {
    if retuned then TunedMode(Seen(q, reading, false), a) else Mode(q.configured)
  }

  predicate Changes(q: Port, a: Abilities) { !AsAsked(q, a) || q.configured != q.speed }

  /** link_update: what is admitted out of what is wanted. */
  function Admitted(enabled: set<nat>, desired: set<nat>, open: bool): set<nat> {
    if open then desired else enabled * desired
  }

  /** The fabric after link_update's writes: ports leave at once, and join only through the open gate. */
  function Steered(f: Fabric, enabled: set<nat>, desired: set<nat>, open: bool, r: Removal): Fabric
    requires f.Valid()
  {
    if !(enabled <= desired) then f.Cleared(enabled - desired, r)
    else if open then f.(link := f.link + (desired - enabled))
    else f
  }

  lemma KeptOrGone(enabled: set<nat>, desired: set<nat>)
    ensures enabled - desired == {} <==> enabled <= desired
    ensures enabled <= desired ==> enabled * desired == enabled
    ensures enabled * desired == enabled - (enabled - desired)
  {
    assert forall p :: p in enabled ==> p in desired || p in enabled - desired;
  }

  /** Port p after a poll that came through the gate. */
  function Retuned(ports: seq<Port>, enabled: set<nat>, req: Request, env: Readings, p: nat): Port
    requires p < 4 && |ports| == 4 && WellFormed(req, env)
  {
    if p in enabled then ports[p] else Tuned(ports[p], req.advertise[p], env.restartOk[p])
  }

  /** The mode that retuning leaves in a logic MAC: a restart does not touch it. */
  function TunedMode(q: Port, a: Abilities): nat {
    Mode(if AsAsked(q, a) then q.speed else q.configured)
  }

  /** The SFP rate machine: the request last acted on, the rate to use, a switch still to be made and
      when the four-second wait began. */
  datatype Sfp = Sfp(request: nat, target: nat, pending: bool, probe: nat)

  /** A new request starts a switch and a live link restarts the wait. */
  function Noticed(s: Sfp, request: nat, up: bool, now: nat): Sfp {
    var s1 := if s.request == request then s
              else Sfp(request, if request == 1000 || request == 10000 then request else 10000, true, now);
    if up then s1.(probe := now) else s1
  }

  /** Without a fixed request, an enabled module that has been silent for four seconds is tried at the
      other rate. */
  predicate Probes(s: Sfp, req: Request, env: Readings, now: nat) {
    req.sfp == 0 && SFP in req.admin && !env.moduleAbsent && !env.sfpUp && !s.pending && Elapsed(now, s.probe) >= 4000
  }

  function Planned(s: Sfp, req: Request, env: Readings, now: nat): Sfp {
    if !env.dualRate then s
    else
      var s1 := Noticed(s, req.sfp, env.sfpUp, now);
      if Probes(s1, req, env, now)
      then s1.(target := if s1.target == 10000 then 1000 else 10000, pending := true)
      else s1
  }

  // ----- the service

  /** The link register holds what the service believes, unless a removal gave up or the links were cut.
      Even then no other port forwards. */
  predicate Believed(f: Fabric, enabled: set<nat>) {
    (f.failed || f.link <= enabled) && (f.failed || f.cut || f.link == enabled)
  }

  class Service {
    const board: Board
    var ports: seq<Port>             // the four copper ports
    var enabled: set<nat>
    var lastClear: nat
    var sfp: Sfp
    ghost var steadyAt: nat          // when the SFP link was last up or its rate last settled

    ghost predicate Valid()
      reads this, board
    {
      && board.Valid() && |ports| == 4
      && Believed(board.f, enabled)
      && lastClear == board.f.clearAt % WORD32
      && sfp.probe == steadyAt % WORD32 && steadyAt <= board.f.sampledAt
      && (forall p :: 0 <= p < 4 && ports[p].ready ==> board.phy[p] == Some(ports[p].applied))
      && (forall i :: 0 <= i < 2 && ports[i].configured != 0 ==> board.gemSpeed[i] == ports[i].configured)
      && (forall i :: 0 <= i < 2 && board.macMode[i] != Mode(ports[i + 2].configured) ==>
            i + 2 !in enabled && board.f.Rested(i + 2))
    }

    /** In the hardware: the PHY advertises what was asked and the MAC is on at the resolved rate. */
    ghost predicate InService(p: nat, req: Request)
      requires p < 4 && Valid() && |req.advertise| == 4
      reads this, board
    {
      && Fit(ports[p], req.advertise[p])
      && board.phy[p] == Some(req.advertise[p]) && board.on[p]
      && if p < 2 then board.gemSpeed[p] == ports[p].speed
         else match board.macMode[p - 2]
              case 2 => ports[p].speed == 1000
              case 1 => ports[p].speed == 100
              case m => m == 0 && ports[p].speed != 1000 && ports[p].speed != 100
    }

    constructor ()
      ensures Valid() && fresh(board) && enabled == {} && board.f == Boot()
      ensures sfp == Sfp(0xffff, 10000, false, 0) && board.macMode == [2, 2] && board.phy == [None, None, None, None]
      ensures forall p :: 0 <= p < 4 ==> ports[p] == Port(false, Abilities(false, false, false), 0, 0)
    {
      board := new Board();
      ports := seq(4, _ => Port(false, Abilities(false, false, false), 0, 0));
      enabled, lastClear := {}, 0;
      sfp, steadyAt := Sfp(0xffff, 10000, false, 0), 0;
    }

    /** board_phy_mask: resolves every copper port. */
    method Observe(env: Readings) returns (observed: set<nat>)
      requires Valid() && |env.phy| == 4
      modifies this`ports
      ensures Valid()
      ensures forall p :: 0 <= p < 4 ==> ports[p] == Seen(old(ports)[p], env.phy[p], p < 2)
      ensures observed == (set p: nat | p < 4 && ports[p].speed != 0) + (if env.sfpUp then {SFP} else {})
    {
      observed := {};
      for i := 0 to 4
        invariant Valid()
        invariant forall p :: 0 <= p < 4 ==>
                    ports[p] == if p < i then Seen(old(ports)[p], env.phy[p], p < 2) else old(ports)[p]
        invariant observed == set p: nat | p < i && ports[p].speed != 0
      {
        ports := ports[i := Seen(ports[i], env.phy[i], i < 2)];
        if ports[i].speed != 0 {
          observed := observed + {i};
        }
      }
      if env.sfpUp {
        observed := observed + {SFP};
      }
    }

    /** Turns off every GEM that must change, before anything else happens to it. */
    method QuiesceGems(req: Request, wanted: set<nat>) returns (desired: set<nat>)
      requires Valid() && |req.advertise| == 4
      modifies board`on
      ensures Valid()
      ensures desired == wanted - set p: nat | p < 2 && Changes(ports[p], req.advertise[p])
      ensures forall p :: 0 <= p < 2 ==> board.on[p] == (p in desired)
    {
      desired := wanted;
      for i := 0 to 2
        invariant Valid()
        invariant desired == wanted - set p: nat | p < i && Changes(ports[p], req.advertise[p])
        invariant forall p :: 0 <= p < i ==> board.on[p] == (p in desired)
      {
        if Changes(ports[i], req.advertise[i]) {
          desired := desired - {i};
        }
        board.GemControl(i, i in desired);
      }
    }

    /** Likewise for the logic MACs, which also get the mode they are set for. */
    method QuiesceMacs(req: Request, wanted: set<nat>) returns (desired: set<nat>)
      requires Valid() && |req.advertise| == 4
      modifies board`on, board`macMode
      ensures Valid()
      ensures desired == wanted - set p: nat | 2 <= p < 4 && Changes(ports[p], req.advertise[p])
      ensures forall p :: 0 <= p < 4 ==> board.on[p] == if p < 2 then old(board.on)[p] else p in desired
      ensures forall i :: 0 <= i < 2 ==> board.macMode[i] == Mode(ports[i + 2].configured)
    {
      desired := wanted;
      for i := 0 to 2
        invariant Valid()
        invariant desired == wanted - set p: nat | 2 <= p < i + 2 && Changes(ports[p], req.advertise[p])
        invariant forall p :: 0 <= p < i + 2 ==> board.on[p] == if p < 2 then old(board.on)[p] else p in desired
        invariant forall k :: 0 <= k < i ==> board.macMode[k] == Mode(ports[k + 2].configured)
      {
        var p := i + 2;
        if Changes(ports[p], req.advertise[p]) {
          desired := desired - {p};
        }
        board.MacControl(i, Mode(ports[p].configured), p in desired);
      }
    }

    /** The first half of link_update: ports that are no longer wanted leave at once. */
    method Leave(desired: set<nat>, now: nat, r: Removal)
      requires Valid() && now == board.f.sampledAt % WORD32
      requires forall i :: 0 <= i < 2 ==> board.macMode[i] == Mode(ports[i + 2].configured)
      modifies this`enabled, this`lastClear, board`f
      ensures Valid() && enabled == old(enabled) * desired
      ensures board.f == if old(enabled) <= desired then old(board.f)
                         else old(board.f).Cleared(old(enabled) - desired, r)
    {
      var gone := enabled - desired;
      KeptOrGone(enabled, desired);
      enabled := enabled * desired;
      if gone != {} {
        lastClear := now;
        board.Clear(gone, r);
      }
    }

    /** The second half: the others join, if the gate is open. */
    method Join(desired: set<nat>, busy: bool, now: nat) returns (open: bool)
      requires Valid() && busy == board.f.sampledBusy && now == board.f.sampledAt % WORD32 && enabled <= desired
      requires forall i :: 0 <= i < 2 ==> board.macMode[i] == Mode(ports[i + 2].configured)
      modifies this`enabled, board`f
      ensures Valid() && open == (!busy && GateOpens(board.f.clearAt, board.f.sampledAt))
      ensures open == (!busy && Elapsed(now, lastClear) >= SETTLE) && (open ==> board.f.Gated())
      ensures enabled == if open then desired else old(enabled)
      ensures board.f == if open then old(board.f).(link := old(board.f).link + (desired - old(enabled)))
                         else old(board.f)
    {
      NeverEarly(board.f.sampledAt, board.f.clearAt, SETTLE);
      open := !busy && Elapsed(now, lastClear) >= SETTLE;
      if open {
        var joining := desired - enabled;
        enabled := enabled + joining;
        if joining != {} {
          board.Set(joining);
        }
        assert enabled == desired;
      }
    }

    /** link_update and its register writes. */
    method Admit(desired: set<nat>, busy: bool, now: nat, r: Removal) returns (open: bool)
      requires Valid() && busy == board.f.sampledBusy && now == board.f.sampledAt % WORD32
      requires forall i :: 0 <= i < 2 ==> board.macMode[i] == Mode(ports[i + 2].configured)
      modifies this`enabled, this`lastClear, board`f
      ensures Valid()
      ensures open == (!busy && old(enabled) <= desired && GateOpens(old(board.f.clearAt), board.f.sampledAt))
      ensures enabled == Admitted(old(enabled), desired, open)
      ensures board.f == Steered(old(board.f), old(enabled), desired, open, r)
      ensures open == (!busy && Elapsed(now, lastClear) >= SETTLE) && (open ==> board.f.Gated())
    {
      KeptOrGone(enabled, desired);
      Leave(desired, now, r);
      open := Join(desired, busy, now);
    }

    /** Restarts autonegotiation with the requested abilities; the rate is unknown until it resolves. */
    method Restart(p: nat, req: Request, env: Readings)
      requires Valid() && WellFormed(req, env) && p < 4 && p !in enabled && board.Quiet(p)
               && !AsAsked(ports[p], req.advertise[p])
      modifies this`ports, board`phy
      ensures Valid()
      ensures ports == old(ports)[p := Tuned(old(ports)[p], req.advertise[p], env.restartOk[p])]
      ensures forall k :: 0 <= k < 4 && k != p ==> board.phy[k] == old(board.phy)[k]
    {
      assert board.f.Rested(p);
      board.PhyRestart(p, req.advertise[p], env.restartOk[p]);
      ports := ports[p := Port(env.restartOk[p],
                               if env.restartOk[p] then req.advertise[p] else ports[p].applied, 0, 0)];
    }

    /** A GEM out of service: restart its PHY if that is needed, else follow the resolved rate. */
    method RetuneGem(i: nat, req: Request, env: Readings)
      requires Valid() && WellFormed(req, env) && i < 2 && i !in enabled && board.f.Gated()
      requires Changes(ports[i], req.advertise[i]) ==> !board.on[i]
      modifies this`ports, board`phy, board`gemSpeed
      ensures Valid()
      ensures ports == old(ports)[i := Tuned(old(ports)[i], req.advertise[i], env.restartOk[i])]
      ensures forall k :: 0 <= k < 4 && k != i ==> board.phy[k] == old(board.phy)[k]
      ensures forall k :: 0 <= k < 2 && k != i ==> board.gemSpeed[k] == old(board.gemSpeed)[k]
    {
      if !AsAsked(ports[i], req.advertise[i]) {
        Restart(i, req, env);
      } else if ports[i].configured != ports[i].speed {
        if ports[i].speed != 0 {
          board.GemSpeed(i, ports[i].speed);
        }
        ports := ports[i := ports[i].(configured := ports[i].speed)];
      }
    }

    /** A logic MAC out of service, in the same way; the MAC stays off while its mode settles. */
    method RetuneMac(i: nat, req: Request, env: Readings)
      requires Valid() && WellFormed(req, env) && i < 2 && i + 2 !in enabled && board.f.Gated()
      requires Changes(ports[i + 2], req.advertise[i + 2]) ==> !board.on[i + 2]
      requires board.macMode[i] == Mode(ports[i + 2].configured)
      modifies this`ports, board`phy, board`on, board`macMode
      ensures Valid()
      ensures ports == old(ports)[i + 2 := Tuned(old(ports)[i + 2], req.advertise[i + 2], env.restartOk[i + 2])]
      ensures forall k :: 0 <= k < 4 && k != i + 2 ==>
                board.phy[k] == old(board.phy)[k] && board.on[k] == old(board.on)[k]
      ensures board.macMode == old(board.macMode)[i := TunedMode(old(ports)[i + 2], req.advertise[i + 2])]
    {
      var p := i + 2;
      if !AsAsked(ports[p], req.advertise[p]) {
        Restart(p, req, env);
      } else if ports[p].configured != ports[p].speed {
        board.MacControl(i, Mode(ports[p].speed), false);
        ports := ports[p := ports[p].(configured := ports[p].speed)];
      }
    }

    method RetuneGems(req: Request, env: Readings)
      requires Valid() && WellFormed(req, env) && board.f.Gated()
      requires forall p :: 0 <= p < 2 && Changes(ports[p], req.advertise[p]) ==> !board.on[p]
      modifies this`ports, board`phy, board`gemSpeed
      ensures Valid()
      ensures forall p :: 0 <= p < 4 ==>
                ports[p] == if p < 2 then Retuned(old(ports), enabled, req, env, p) else old(ports)[p]
      ensures forall p :: 0 <= p < 4 && (p in enabled || p >= 2) ==> board.phy[p] == old(board.phy)[p]
      ensures forall p :: 0 <= p < 2 && p in enabled ==> board.gemSpeed[p] == old(board.gemSpeed)[p]
    {
      for i := 0 to 2
        invariant Valid()
        invariant forall p :: 0 <= p < 4 ==>
                    ports[p] == if p < i then Retuned(old(ports), enabled, req, env, p) else old(ports)[p]
        invariant forall p :: 0 <= p < 4 && (p in enabled || p >= 2) ==> board.phy[p] == old(board.phy)[p]
        invariant forall p :: 0 <= p < 2 && p in enabled ==> board.gemSpeed[p] == old(board.gemSpeed)[p]
      {
        if i !in enabled {
          RetuneGem(i, req, env);
        }
      }
    }

    method RetuneMacs(req: Request, env: Readings)
      requires Valid() && WellFormed(req, env) && board.f.Gated()
      requires forall p :: 2 <= p < 4 && Changes(ports[p], req.advertise[p]) ==> !board.on[p]
      requires forall i :: 0 <= i < 2 ==> board.macMode[i] == Mode(ports[i + 2].configured)
      modifies this`ports, board`phy, board`on, board`macMode
      ensures Valid()
      ensures forall p :: 0 <= p < 4 ==>
                ports[p] == if p < 2 then old(ports)[p] else Retuned(old(ports), enabled, req, env, p)
      ensures forall p :: 0 <= p < 4 && (p in enabled || p < 2) ==>
                board.phy[p] == old(board.phy)[p] && board.on[p] == old(board.on)[p]
      ensures forall i :: 0 <= i < 2 ==>
                board.macMode[i] == if i + 2 in enabled then old(board.macMode)[i]
                                    else TunedMode(old(ports)[i + 2], req.advertise[i + 2])
    {
      for i := 0 to 2
        invariant Valid()
        invariant forall p :: 0 <= p < 4 ==>
                    ports[p] == if 2 <= p < i + 2 then Retuned(old(ports), enabled, req, env, p) else old(ports)[p]
        invariant forall p :: i + 2 <= p < 4 ==> board.on[p] == old(board.on)[p]
        invariant forall p :: 0 <= p < 4 && (p in enabled || p < 2) ==>
                    board.phy[p] == old(board.phy)[p] && board.on[p] == old(board.on)[p]
        invariant forall k :: 0 <= k < 2 ==>
                    board.macMode[k] == if k >= i || k + 2 in enabled then old(board.macMode)[k]
                                        else TunedMode(old(ports)[k + 2], req.advertise[k + 2])
      {
        if i + 2 !in enabled {
          RetuneMac(i, req, env);
        }
      }
    }

    /** When this poll will sample its clock. */
    ghost function SampleTime(env: Readings): nat
      reads this, board
    {
      board.f.time + env.before.took
    }

    /** The ports that should be in the fabric, given what this poll meets. */
    ghost function Wanted(req: Request, env: Readings): set<nat>
      requires Valid() && WellFormed(req, env)
      reads this, board
    {
      if !env.healthy then {}
      else
        (set p: nat | p < 4 && p in req.admin && Fit(Seen(ports[p], env.phy[p], p < 2), req.advertise[p])) +
        (if SFP in req.admin && env.sfpUp
            && !(env.dualRate && Planned(sfp, req, env, SampleTime(env) % WORD32).pending)
         then {SFP} else {})
    }

    /** This poll finds the gate of link_update open, in time that does not wrap. */
    ghost predicate Opens(req: Request, env: Readings)
      requires Valid() && WellFormed(req, env)
      reads this, board
    {
      !env.before.busy && enabled <= Wanted(req, env) && GateOpens(board.f.clearAt, SampleTime(env))
    }

    /** Plans the SFP rate and says whether the SFP must stay out of the fabric. */
    method PlanSfp(req: Request, env: Readings, now: nat) returns (held: bool)
      requires Valid() && now == board.f.sampledAt % WORD32
      modifies this`sfp, this`steadyAt
      ensures Valid() && sfp == Planned(old(sfp), req, env, now) && held == (env.dualRate && sfp.pending)
      ensures sfp.target != old(sfp.target) && req.sfp == old(sfp.request) ==>
                board.f.sampledAt - old(steadyAt) >= 4000 && !env.sfpUp
    {
      held := false;
      if env.dualRate {
        NeverEarly(board.f.sampledAt, steadyAt, 4000);
        if sfp.request != req.sfp || env.sfpUp {
          steadyAt := board.f.sampledAt;
        }
        sfp := Planned(sfp, req, env, now);
        held := sfp.pending;
      }
    }

    /** The observations and samples of a poll. */
    method Look(req: Request, env: Readings) returns (candidates: set<nat>, now: nat, busy: bool)
      requires Valid() && WellFormed(req, env)
      modifies this`ports, this`sfp, this`steadyAt, board`f
      ensures Valid() && board.f == old(board.f).After(env.before).Sampled()
      ensures now == board.f.sampledAt % WORD32 && busy == board.f.sampledBusy
      ensures forall p :: 0 <= p < 4 ==> ports[p] == Seen(old(ports)[p], env.phy[p], p < 2)
      ensures sfp == Planned(old(sfp), req, env, now)
      ensures candidates == req.admin * ((set p: nat | p < 4 && ports[p].speed != 0) +
                                         (if env.sfpUp && !(env.dualRate && sfp.pending) then {SFP} else {}))
    {
      board.Elapse(env.before);
      var observed := Observe(env);
      now, busy := board.Sample();
      var held := PlanSfp(req, env, now);
      candidates := observed * req.admin;
      if held {
        candidates := candidates - {SFP};
      }
    }

    /** The first half of a poll: observe, plan and quiesce. */
    method Prepare(req: Request, env: Readings) returns (desired: set<nat>, now: nat, busy: bool)
      requires Valid() && WellFormed(req, env)
      modifies this`ports, this`sfp, this`steadyAt, board`f, board`on, board`macMode
      ensures Valid() && board.f == old(board.f).After(env.before).Sampled()
      ensures now == board.f.sampledAt % WORD32 && busy == board.f.sampledBusy
      ensures desired == old(Wanted(req, env))
      ensures forall p :: 0 <= p < 4 ==> ports[p] == Seen(old(ports)[p], env.phy[p], p < 2)
      ensures forall i :: 0 <= i < 2 ==> board.macMode[i] == Mode(ports[i + 2].configured)
      ensures forall p :: 0 <= p < 4 && Changes(ports[p], req.advertise[p]) ==> !board.on[p]
      ensures forall p :: 0 <= p < 4 && p in desired ==> InService(p, req)
    {
      ghost var wanted := Wanted(req, env);
      desired, now, busy := Look(req, env);
      desired := QuiesceGems(req, desired);
      desired := QuiesceMacs(req, desired);
      if !env.healthy {
        desired := {};
      }
      assert desired == wanted;
    }

    /** The second half, through the open gate: retune what is out of service. */
    method Finish(req: Request, env: Readings, now: nat)
      requires Valid() && WellFormed(req, env) && board.f.Gated() && now == board.f.sampledAt % WORD32
      requires forall p :: 0 <= p < 4 && Changes(ports[p], req.advertise[p]) ==> !board.on[p]
      requires forall p :: 0 <= p < 4 && p in enabled ==> InService(p, req)
      requires forall i :: 0 <= i < 2 ==> board.macMode[i] == Mode(ports[i + 2].configured)
      modifies this`ports, this`sfp, this`steadyAt, board`phy, board`gemSpeed, board`on, board`macMode, board`sfpRate
      ensures Valid()
      ensures forall p :: 0 <= p < 4 && p in enabled ==> InService(p, req)
      ensures forall p :: 0 <= p < 4 ==> ports[p] == Retuned(old(ports), enabled, req, env, p)
      ensures forall i :: 0 <= i < 2 ==>
                board.macMode[i] == if i + 2 in enabled then old(board.macMode)[i]
                                    else TunedMode(old(ports)[i + 2], req.advertise[i + 2])
      ensures SFP !in enabled ==> !sfp.pending && (old(sfp.pending) ==> board.sfpRate == sfp.target)
    {
      RetuneGems(req, env);
      RetuneMacs(req, env);
      if sfp.pending && SFP !in enabled {
        board.SfpSwitch(sfp.target);
        sfp, steadyAt := sfp.(pending := false, probe := now), board.f.sampledAt;
      }
    }

    /** Everything up to the removal or admission of ports. */
    method Steer(req: Request, env: Readings) returns (now: nat, busy: bool)
      requires Valid() && WellFormed(req, env)
      modifies this`ports, this`sfp, this`steadyAt, this`enabled, this`lastClear, board`f, board`on, board`macMode
      ensures Valid() && now == board.f.sampledAt % WORD32
      ensures old(Opens(req, env)) == (!busy && Elapsed(now, lastClear) >= SETTLE)
              && (old(Opens(req, env)) ==> board.f.Gated())
      ensures enabled == Admitted(old(enabled), old(Wanted(req, env)), old(Opens(req, env)))
      ensures board.f == Steered(old(board.f).After(env.before).Sampled(), old(enabled), old(Wanted(req, env)),
                                 old(Opens(req, env)), env.removal)
      ensures forall p :: 0 <= p < 4 ==> ports[p] == Seen(old(ports)[p], env.phy[p], p < 2)
      ensures forall i :: 0 <= i < 2 ==> board.macMode[i] == Mode(ports[i + 2].configured)
      ensures forall p :: 0 <= p < 4 && Changes(ports[p], req.advertise[p]) ==> !board.on[p]
      ensures forall p :: 0 <= p < 4 && p in enabled ==> InService(p, req)
    {
      var desired;
      desired, now, busy := Prepare(req, env);
      var open := Admit(desired, busy, now, env.removal);
      assert open == old(Opens(req, env));
    }

    /** One poll. Its effect on the fabric, the forwarding set, every copper port and the mode of every
        logic MAC is exact, and a forwarding copper port runs as requested in the hardware. */
    method Poll(req: Request, env: Readings)
      requires Valid() && WellFormed(req, env)
      modifies this, board
      ensures Valid() && (old(Opens(req, env)) <==> board.f.CameThrough())
              && (board.f.CameThrough() ==> board.f.Gated())
      ensures enabled == Admitted(old(enabled), old(Wanted(req, env)), old(Opens(req, env)))
      ensures board.f == Steered(old(board.f).After(env.before).Sampled(), old(enabled), old(Wanted(req, env)),
                                 old(Opens(req, env)), env.removal).After(env.after)
      ensures forall p :: 0 <= p < 4 && p in enabled ==> InService(p, req)
      ensures forall p :: 0 <= p < 4 ==>
                ports[p] == PortAfter(old(ports)[p], env.phy[p], p < 2, req.advertise[p], env.restartOk[p],
                  old(Opens(req, env)) && p !in enabled)
      ensures forall i :: 0 <= i < 2 ==>
                board.macMode[i] == ModeAfter(old(ports)[i + 2], env.phy[i + 2], req.advertise[i + 2],
                  old(Opens(req, env)) && i + 2 !in enabled)
    {
      var now, busy := Steer(req, env);
      board.Elapse(env.after);
      if !busy && Elapsed(now, lastClear) >= SETTLE {
        Finish(req, env, now);
      }
    }
  }

  // ----- what forwards, and the SFP rate

  /** The rate is one that was advertised. */
  predicate Offered(a: Abilities, rate: nat) {
    && (rate == 1000 ==> a.gigabit) && (rate == 100 ==> a.hundred)
    && (rate != 1000 && rate != 100 ==> a.ten)
  }

  /** After any poll a forwarding port is enabled by the administrator and has its link up now. A copper port
      has it at a rate that was asked for, and its PHY and MAC are set accordingly. */
  method PollForwards(s: Service, req: Request, env: Readings)
    requires s.Valid() && WellFormed(req, env)
    modifies s, s.board
    ensures s.Valid() && s.enabled <= req.admin && (4 in s.enabled ==> env.sfpUp)
    ensures forall p :: 0 <= p < 4 && p in s.enabled ==>
              && env.phy[p].Some? && env.phy[p].value != 0 && Offered(req.advertise[p], env.phy[p].value)
              && s.board.phy[p] == Some(req.advertise[p]) && s.board.on[p]
              && s.ports[p].speed == env.phy[p].value && s.InService(p, req)
  {
    s.Poll(req, env);
  }

  /** The plan for a dual-rate SFP cage. A new request is followed at once, 10 Gb/s when it names no rate. While
      it names none, an enabled and present module without link for four seconds is tried at the other rate. */
  lemma SfpPlanIs(s: Sfp, req: Request, env: Readings, now: nat)
    requires env.dualRate
    ensures var t := Planned(s, req, env, now);
            && t.request == req.sfp
            && (s.request != req.sfp ==> t.pending && t.target == if req.sfp == 1000 then 1000 else 10000)
            && (s.request != req.sfp || env.sfpUp ==> t.probe == now)
            && (s.request == req.sfp && !env.sfpUp ==> t.probe == s.probe)
            && (s.request == req.sfp ==>
                  if req.sfp == 0 && 4 in req.admin && !env.moduleAbsent && !env.sfpUp && !s.pending
                     && (now - s.probe) % 0x1_0000_0000 >= 4000
                  then t.pending && t.target == (if s.target == 10000 then 1000 else 10000)
                  else t.pending == s.pending && t.target == s.target)
  {
    assert (now - now) % WORD32 == 0;
  }

  /** The plan after polls at these clock samples. */
  function PlannedOver(s: Sfp, polls: seq<(Visit, nat)>): Sfp
    decreases |polls|
  {
    if polls == [] then s
    else
      var (v, now) := polls[|polls| - 1];
      Planned(PlannedOver(s, polls[..|polls| - 1]), v.req, v.env, now)
  }

  /** A request for a rate is kept to, whatever the link does and however often the service polls. */
  lemma {:induction false} FixedRateStays(s: Sfp, rate: nat, polls: seq<(Visit, nat)>)
    requires (rate == 1000 || rate == 10000) && (s.request == rate ==> s.target == rate)
    requires forall k :: 0 <= k < |polls| ==> polls[k].0.req.sfp == rate
    ensures PlannedOver(s, polls).request == rate ==> PlannedOver(s, polls).target == rate
    decreases |polls|
  {
    if polls != [] {
      FixedRateStays(s, rate, polls[..|polls| - 1]);
    }
  }

  // ----- where the gate falls short

  datatype Visit = Visit(req: Request, env: Readings)

  predicate AllWellFormed(visits: seq<Visit>) {
    forall k :: 0 <= k < |visits| ==> WellFormed(visits[k].req, visits[k].env)
  }

  /** How old the last removal is at the end of what other tasks do, if it was age at the start. */
  function Aged(age: nat, o: Others): nat {
    if o.cut.Some? then o.SinceCut() else age + o.took
  }

  /** The same over polls that remove nothing. */
  function AgedOver(age: nat, visits: seq<Visit>): nat {
    if visits == [] then age
    else
      var env := visits[|visits| - 1].env;
      Aged(Aged(AgedOver(age, visits[..|visits| - 1]), env.before), env.after)
  }

  predicate Uncut(v: Visit) { v.env.before.cut.None? && v.env.after.cut.None? }

  predicate AllUncut(visits: seq<Visit>) {
    forall k :: 0 <= k < |visits| ==> Uncut(visits[k])
  }

  function TookOver(visits: seq<Visit>): nat {
    if visits == [] then 0
    else
      var env := visits[|visits| - 1].env;
      TookOver(visits[..|visits| - 1]) + env.before.took + env.after.took
  }

  /** Without a cut all the time that passes counts. */
  lemma {:induction false} AgedWithoutCut(age: nat, visits: seq<Visit>)
    requires AllUncut(visits)
    ensures AgedOver(age, visits) == age + TookOver(visits)
  {
    if visits != [] {
      assert Uncut(visits[|visits| - 1]);
      AgedWithoutCut(age, visits[..|visits| - 1]);
    }
  }

  /** What a removal still waits for after it took effect. */
  function Rest(r: Removal): nat { if r.Removed? then r.rest else 0 }

  /** One poll, and the age of the last removal after it. */
  method PollAge(s: Service, v: Visit)
    requires s.Valid() && WellFormed(v.req, v.env)
    modifies s, s.board
    ensures s.Valid() && s.board.f.busy == v.env.after.busy
    ensures var f, g, removes := old(s.board.f), s.board.f, !(old(s.enabled) <= old(s.Wanted(v.req, v.env)));
            && g.sampledAt == f.time + v.env.before.took && (!removes ==> g.time == g.sampledAt + v.env.after.took)
            && g.removals == f.removals + (if removes then 1 else 0)
            && g.clearAt == (if removes then g.sampledAt else f.clearAt)
            && g.time - g.removedAt == Aged(if removes then Rest(v.env.removal)
                                            else Aged(f.time - f.removedAt, v.env.before),
                                            v.env.after)
            && (Uncut(v) ==> g.removedAt == if removes then g.sampledAt + v.env.removal.late else f.removedAt)
  {
    s.Poll(v.req, v.env);
  }

  /** Any number of polls after one that removes a port, when none of the later ones does. The writes of the
      last meet an idle fabric, 250 ms past every removal, if and only if no flush is under way by then and
      what the polls and the other tasks took since the removal adds up to 250 ms, counted anew from every
      cut. Without a cut it is enough, behind an open gate, that the last poll takes as long to its writes
      as the removal took to its own. */
  method WritesMeetIdleIff(s: Service, first: Visit, later: seq<Visit>)
    requires s.Valid() && WellFormed(first.req, first.env) && AllWellFormed(later) && later != []
    requires !(s.enabled <= s.Wanted(first.req, first.env))
    modifies s, s.board
    ensures s.Valid() && old(s.board.f.removals) < s.board.f.removals
    ensures s.board.f.removals == old(s.board.f.removals) + 1 ==>
              && s.board.f.clearAt == old(s.SampleTime(first.env))
              && (s.board.f.Idle() <==>
                    && !later[|later| - 1].env.after.busy
                    && AgedOver(Aged(Rest(first.env.removal), first.env.after), later) >= 250)
    ensures s.board.f.removals == old(s.board.f.removals) + 1 && Uncut(first) && AllUncut(later) ==>
              && s.board.f.time - s.board.f.removedAt
                 == Rest(first.env.removal) + first.env.after.took + TookOver(later)
              && s.board.f.removedAt == old(s.SampleTime(first.env)) + first.env.removal.late
              && (s.board.f.CameThrough() && !s.board.f.busy
                  && first.env.removal.late <= later[|later| - 1].env.after.took ==>
                    s.board.f.Idle())
  {
    PollAge(s, first);
    ghost var age, c := Aged(Rest(first.env.removal), first.env.after), s.board.f.clearAt;
    for k := 0 to |later|
      invariant s.Valid() && old(s.board.f.removals) < s.board.f.removals
      invariant k > 0 ==> s.board.f.busy == later[k - 1].env.after.busy
      invariant s.board.f.removals == old(s.board.f.removals) + 1 ==>
                  && s.board.f.clearAt == c
                  && s.board.f.time - s.board.f.removedAt == AgedOver(age, later[..k])
                  && (k > 0 ==> s.board.f.time == s.board.f.sampledAt + later[k - 1].env.after.took)
                  && (Uncut(first) && AllUncut(later[..k]) ==> s.board.f.removedAt == c + first.env.removal.late)
    {
      assert later[..k + 1][..k] == later[..k];
      PollAge(s, later[k]);
    }
    assert later[..|later|] == later;
    if AllUncut(later) { AgedWithoutCut(age, later); }
    NeverEarly(s.board.f.sampledAt, s.board.f.clearAt, SETTLE);
  }

  /** The mode register is out of step with the port exactly after a retuning that restarted the PHY of
      a MAC not in the slowest mode; the next poll then writes it. */
  lemma ModeLeftBehindIff(q: Port, reading: Option<nat>, a: Abilities, ok: bool, retuned: bool)
    ensures ModeAfter(q, reading, a, retuned) != Mode(PortAfter(q, reading, false, a, ok, retuned).configured) <==>
            retuned && !AsAsked(q, a) && Mode(q.configured) != 0
  {
  }

  /** What a poll leaves in logic MAC i, against the port's configured rate. */
  method PollMode(s: Service, req: Request, env: Readings, i: nat) returns (mode: nat)
    requires s.Valid() && WellFormed(req, env) && i < 2
    modifies s, s.board
    ensures s.Valid() && mode == s.board.macMode[i] && (old(s.Opens(req, env)) <==> s.board.f.CameThrough())
    ensures !old(s.Opens(req, env)) ==> mode == Mode(old(s.ports)[i + 2].configured)
    ensures mode != Mode(s.ports[i + 2].configured) <==>
            && old(s.Opens(req, env)) && !AsAsked(old(s.ports)[i + 2], req.advertise[i + 2])
            && Mode(old(s.ports)[i + 2].configured) != 0
  {
    ghost var q, wanted, opens := s.ports[i + 2], s.Wanted(req, env), s.Opens(req, env);
    assert !AsAsked(q, req.advertise[i + 2]) ==> i + 2 !in wanted;
    s.Poll(req, env);
    mode := s.board.macMode[i];
    ModeLeftBehindIff(q, env.phy[i + 2], req.advertise[i + 2], env.restartOk[i + 2], opens && i + 2 !in s.enabled);
  }

  /** Behind a shut gate too every poll writes the mode a logic MAC is set for. In two polls, the second
      behind a shut gate, it changes the mode if and only if the first came through the gate and
      restarted the PHY of a MAC that was not in the slowest mode. */
  method ModeChangesBehindShutGate(s: Service, first: Visit, second: Visit, i: nat) returns (changed: bool)
    requires s.Valid() && WellFormed(first.req, first.env) && WellFormed(second.req, second.env) && i < 2
    modifies s, s.board
    ensures s.Valid()
    ensures !s.board.f.CameThrough() ==>
              (changed <==>
               && old(s.Opens(first.req, first.env)) && !AsAsked(old(s.ports)[i + 2], first.req.advertise[i + 2])
               && Mode(old(s.ports)[i + 2].configured) != 0)
  {
    var before := PollMode(s, first.req, first.env, i);
    var after := PollMode(s, second.req, second.env, i);
    changed := after != before;
  }

  // ----- both shortfalls in runs

  /** A poll t milliseconds after the last, in which only the SFP has a link or not. */
  function SfpOnly(t: nat, busy: bool, up: bool, late: nat): Readings {
    var others := Others(0, false, false, None, {SFP});
    Readings(others.(took := t, busy := busy), [None, None, None, None], up, false, false, true, Removed(late, 0, true),
             others, [false, false, false, false])
  }

  function SfpRequest(): Request {
    var none := Abilities(false, false, false);
    Request({SFP}, [none, none, none, none], 0)
  }

  method SfpPoll(s: Service, t: nat, busy: bool, up: bool, late: nat)
    requires s.Valid() && s.enabled <= {SFP} && s.board.f.time + t < WORD32
    modifies s, s.board
    ensures s.Valid() && s.enabled <= {SFP}
    ensures var f := old(s.board.f).After(SfpOnly(t, busy, up, late).before).Sampled();
            var open := !busy && (old(s.enabled) == {} || up) && f.time - f.clearAt >= SETTLE;
            && s.enabled == (if open && up then {SFP} else if up then old(s.enabled) else {})
            && s.board.f == Steered(f, old(s.enabled), if up then {SFP} else {}, open, Removed(late, 0, true))
                            .After(SfpOnly(t, busy, up, late).after)
    ensures forall i :: 0 <= i < 2 && (busy || old(s.board.f.time) + t < SETTLE) ==>
              s.board.macMode[i] == Mode(old(s.ports)[i + 2].configured)
  {
    ghost var req, env := SfpRequest(), SfpOnly(t, busy, up, late);
    NeverEarly(s.SampleTime(env), s.board.f.clearAt, SETTLE);
    assert s.Wanted(req, env) == if up then {SFP} else {};
    assert s.enabled <= s.Wanted(req, env) <==> s.enabled == {} || up;
    s.Poll(SfpRequest(), SfpOnly(t, busy, up, late));
  }

  /** A port removed one millisecond late, at 1001, is let back in by the poll at 1250. */
  method ReadmittedEarly() returns (s: Service)
    ensures s.Valid() && s.board.f.sampledAt == 1250 && s.board.f.removedAt == 1001 && !s.board.f.Idle()
    ensures s.enabled == {SFP} && s.board.f.Forwards(SFP)
  {
    s := new Service();
    SfpPoll(s, 500, false, true, 0);
    assert s.enabled == {SFP} && s.board.f.time == 500 && s.board.f.clearAt == 0;
    SfpPoll(s, 500, false, false, 1);
    assert s.enabled == {} && s.board.f.time == 1001 && s.board.f.clearAt == 1000 && s.board.f.removedAt == 1001;
    SfpPoll(s, 249, false, true, 0);
  }

  /** A flush that another task began after the sample is under way when the poll restarts a PHY. */
  method RestartedWhileFlushing() returns (s: Service)
    ensures s.Valid() && s.board.f.Gated() && s.board.f.busy && !s.board.f.Idle()
    ensures s.board.phy[0] == Some(SfpRequest().advertise[0])
  {
    s := new Service();
    NeverEarly(500, 0, SETTLE);
    assert s.board.phy[0] == None;
    s.Poll(SfpRequest(), SfpOnly(500, false, false, 0).(after := Others(1, true, false, None, {SFP}),
                                                       restartOk := [true, true, true, true]));
    assert s.ports[0].ready;
  }

  /** The first poll changes the modes of the logic MACs while the fabric is flushing. */
  method ModeWrittenWhileFlushing() returns (s: Service)
    ensures s.Valid() && s.board.f.sampledBusy && s.board.macMode == [0, 0]
  {
    s := new Service();
    SfpPoll(s, 100, true, false, 0);
    assert s.board.macMode == [s.board.macMode[0], s.board.macMode[1]];
  }

  // ----- when the network stack may use the links

  /** network_link_ready: the stack starts once some link has been up for the settling time. */
  class NetworkLink {
    const settle: nat
    var physical: bool
    var ready: bool
    var upSince: nat
    ghost var last: nat      // time of the last call
    ghost var since: nat     // time of the first call of the present spell of link
    ghost var prompt: bool   // no two calls were almost a counter period apart

    ghost predicate Valid()
      reads this
    {
      && settle < WORD32 && since <= last
      && (physical ==> upSince == since % WORD32)
      && (ready ==> physical && last - since >= settle)
      && (prompt && physical && last - since >= settle ==> ready)
    }

    constructor (ms: nat)
      requires ms < WORD32
      ensures Valid() && settle == ms && !ready && !physical && prompt && last == 0
    {
      settle, physical, ready, upSince := ms, false, false, 0;
      last, since, prompt := 0, 0, true;
    }

    /** Never ready early, and, while calls keep coming, ready exactly when the link has settled. */
    method Update(up: bool, time: nat) returns (nowReady: bool)
      requires Valid() && last <= time
      modifies this
      ensures Valid() && last == time && physical == up && nowReady == ready
      ensures since == if up && old(physical) then old(since) else time
      ensures prompt == (old(prompt) && time - old(last) <= WORD32 - settle)
      ensures ready ==> up && time - since >= settle
      ensures prompt ==> (ready <==> up && time - since >= settle)
    {
      var now := time % WORD32;
      if !up || !physical {
        upSince, ready, since := now, false, time;
      }
      NeverEarly(time, since, settle);
      physical := up;
      if up && Elapsed(now, upSince) >= settle {
        ready := true;
      }
      prompt := prompt && time - last <= WORD32 - settle;
      last := time;
      nowReady := ready;
    }
  }
}
