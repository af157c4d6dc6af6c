/**
 The redundant two-slot configuration store. A save truncates the slot that does not hold
 the current record, writes the record without its commit marker, reads it back, writes the
 marker last and reads everything back. Any operation may fail, and an interrupted write
 leaves a prefix; a power cut is an operation that fails and is never followed by another.
*/
module ConfigStore {
  import opened Common
  import opened Config

  const MARKER_AT: nat := 252

  function Blank(n: nat): (s: Bytes)
    ensures |s| == n && forall i :: 0 <= i < n ==> s[i] == 0xff
  {
    seq(n, _ => 0xff)
  }

  type Slot = s: Bytes | |s| == RECORD_SIZE witness Blank(RECORD_SIZE)
  type Slots = m: seq<Slot> | |m| == 2 witness [BlankSlot(), BlankSlot()]

  function BlankSlot(): Slot { Blank(RECORD_SIZE) }

  datatype Store = Store(value: SwitchConfig, sequence: Word, slot: int, writable: bool, saved: bool)

  /** (int32_t)(a-b) > 0 */
  predicate Newer(a: Word, b: Word) {
    0 < (a - b) % WORD32 < 0x8000_0000
  }

  /** The next generation in 32-bit arithmetic. */
  function Next(q: Word): Word {
    (q + 1) % WORD32
  }

  function Username(): (s: Bytes)
    ensures |s| == 32
  {
    [0x61, 0x64, 0x6d, 0x69, 0x6e] + Zeros(27)
  }

  function Salt(): (s: Bytes)
    ensures |s| == 16
  {
    [0x6b, 0x72, 0x32, 0x36, 0x30, 0x2d, 0x30, 0x61] + [0x33, 0x35, 0x30, 0x66, 0x33, 0x37, 0x34, 0x35]
  }

  function Hash(): (s: Bytes)
    ensures |s| == 32
  {
    [0xbe, 0x04, 0xc1, 0xe4, 0xa0, 0xfe, 0x61, 0x73] + [0x03, 0xd2, 0x44, 0x7f, 0x93, 0xbe, 0x2d, 0xc3] +
    [0x78, 0xf9, 0x3b, 0x62, 0x75, 0xf4, 0x9a, 0x8c] + [0xa7, 0x93, 0x61, 0x97, 0xb9, 0xc3, 0x56, 0xca]
  }

  function Defaults(): SwitchConfig {
    Fields(FactoryMacs(), Username(), Salt(), Hash(), ROUNDS, 31, [4, 7, 7, 7], 0, true, false, 2,
           Zeros(4), Zeros(4), Zeros(4))
  }

  predicate Foreign(r: Slot) {
    r != BlankSlot() && !KnownHeader(r)
  }

  // ----- loading

  /** What one slot, read successfully or not, does to the store being loaded. */
  function LoadSlot(s: Store, r: Slot, ok: bool, slot: int): Store {
    if !ok then s.(writable := false)
    else
      var d := Decode(r);
      var t := if d.Some? && (s.slot < 0 || Newer(d.value.1, s.sequence))
               then s.(value := d.value.0, sequence := d.value.1, slot := slot, saved := true)
               else s;
      if Foreign(r) then t.(writable := false) else t
  }

  function Empty(): Store {
    Store(Defaults(), 0, -1, true, false)
  }

  function Load(m: Slots, ok0: bool, ok1: bool): Store {
    LoadSlot(LoadSlot(Empty(), m[0], ok0, 0), m[1], ok1, 1)
  }

  // ----- the card

  /** The first k bytes of a record over a truncated slot. */
  function Torn(record: Bytes, k: nat): (s: Slot)
    requires |record| == RECORD_SIZE && k <= RECORD_SIZE
  {
    record[..k] + Blank(RECORD_SIZE - k)
  }

  function Overwrite(s: Slot, offset: nat, data: Bytes): Slot
    requires offset + |data| <= RECORD_SIZE
  {
    s[..offset] + data + s[offset + |data|..]
  }

  class Card {
    var slots: Slots
    var readable: seq<bool>   // which slots can be read just now
    const reliable: bool      // no operation on this card ever fails

    predicate Valid()
      reads this
    {
      |readable| == 2 && (reliable ==> readable == [true, true])
    }

    /** A card with two blank slots. */
    constructor (neverFails: bool)
      ensures Valid() && slots == [BlankSlot(), BlankSlot()] && reliable == neverFails
    {
      slots, readable, reliable := [BlankSlot(), BlankSlot()], [true, true], neverFails;
    }

    method Read(slot: nat, offset: nat, size: nat) returns (ok: bool, data: Bytes)
      requires Valid() && slot < 2 && offset + size <= RECORD_SIZE
      ensures |data| == size && ok == readable[slot] && (ok ==> data == slots[slot][offset..offset+size])
    {
      ok := readable[slot];
      data := if ok then slots[slot][offset..offset+size] else Blank(size);
    }

    /** Whether a slot can be read may change with every other operation. */
    method Disturb()
      requires Valid()
      modifies this`readable
      ensures Valid()
    {
      if !reliable {
        var first: bool, second: bool := *, *;
        readable := [first, second];
      }
    }

    /** Leaves the slot reading as blank, or on failure possibly as it was. */
    method Truncate(slot: nat) returns (ok: bool)
      requires Valid() && slot < 2
      modifies this
      ensures Valid() && (reliable ==> ok)
      ensures slots == old(slots)[slot := BlankSlot()] || (!ok && slots == old(slots))
    {
      Disturb();
      ok := *;
      ok := ok || reliable;
      var done: bool := *;
      if ok || done { slots := slots[slot := BlankSlot()]; }
    }

    /** A write leaves some prefix of the data behind, and only on a card that never fails can its report be
        relied on. */
    method Write(slot: nat, offset: nat, data: Bytes) returns (ok: bool)
      requires Valid() && slot < 2 && offset + |data| <= RECORD_SIZE
      modifies this
      ensures Valid() && (reliable ==> ok)
      ensures exists k :: (
        && 0 <= k <= |data| && (reliable ==> k == |data|)
        && slots == old(slots)[slot := Overwrite(old(slots)[slot], offset, data[..k])])
    {
      Disturb();
      var k: nat :| k <= |data| && (reliable ==> k == |data|);
      slots := slots[slot := Overwrite(slots[slot], offset, data[..k])];
      ok := *;
      ok := ok || reliable;
    }
  }

  method ConfigLoad(card: Card) returns (s: Store)
    requires card.Valid()
    ensures s == Load(card.slots, card.readable[0], card.readable[1])
  {
    s := Store(Defaults(), 0, -1, true, false);
    for slot := 0 to 2
      invariant slot == 0 ==> s == Empty()
      invariant slot == 1 ==> s == LoadSlot(Empty(), card.slots[0], card.readable[0], 0)
      invariant slot == 2 ==> s == Load(card.slots, card.readable[0], card.readable[1])
    {
      var ok, record := card.Read(slot, 0, RECORD_SIZE);
      if !ok {
        s := s.(writable := false);
        continue;
      }
      assert record == card.slots[slot];
      var d := Decode(record);
      if d.Some? && (s.slot < 0 || Newer(d.value.1, s.sequence)) {
        s := s.(value := d.value.0, sequence := d.value.1, slot := slot, saved := true);
      }
      if record != BlankSlot() && !KnownHeader(record) {
        s := s.(writable := false);
      }
    }
  }

  // ----- saving

  function Target(s: Store): nat {
    if s.slot == 0 then 1 else 0
  }

  /** Every way one save can end, from the card it found to the card it leaves. */
  ghost predicate Saved(m: Slots, s: Store, value: SwitchConfig, n: Slots, acked: bool) {
    || (n == m && !acked)
    || (s.writable && Valid(value) && s.saved && s.value == value && n == m && acked)
    || (s.writable && Valid(value) && exists k {:trigger Torn(Encode(value, Next(s.sequence)), k)} :: (
          && 0 <= k <= RECORD_SIZE && (acked ==> k == RECORD_SIZE)
          && n == m[Target(s) := Torn(Encode(value, Next(s.sequence)), k)]))
  }

  method ConfigSave(card: Card, s: Store, value: SwitchConfig) returns (ok: bool, t: Store)
    requires card.Valid() && (s.saved ==> Valid(s.value))
    modifies card
    ensures card.Valid() && Saved(old(card.slots), s, value, card.slots, ok)
    ensures card.reliable && s.writable && Valid(value) ==> ok
    ensures t == if ok && (!s.saved || s.value != value)
                 then Store(value, Next(s.sequence), Target(s), s.writable, true) else s
  {
    ok, t := false, s;
    if !s.writable || !Valid(value) { return; }
    var sequence := Next(s.sequence);
    var record := Encode(value, sequence);
    if s.saved {
      if record == Encode(s.value, sequence) {
        EncodeInjective(value, s.value, sequence);
        return true, s;
      }
    }
    var slot := if s.slot == 0 then 1 else 0;
    ok := Commit(card, slot, record);
    if ok { t := Store(value, sequence, slot, s.writable, true); }
  }

  /** Truncate, body, read back, marker, read back; the first failure ends it. */
  method Commit(card: Card, slot: nat, record: Bytes) returns (ok: bool)
    requires card.Valid() && slot < 2 && |record| == RECORD_SIZE
    modifies card
    ensures card.Valid() && (card.reliable ==> ok)
    ensures (!ok && card.slots == old(card.slots)) || exists k {:trigger Torn(record, k)} :: (
      && 0 <= k <= RECORD_SIZE && (ok ==> k == RECORD_SIZE)
      && card.slots == old(card.slots)[slot := Torn(record, k)])
  {
    ghost var m := card.slots;
    ok := card.Truncate(slot);
    assert Torn(record, 0) == BlankSlot();
    if !ok { return; }
    ok := card.Write(slot, 0, record[..MARKER_AT]);
    ghost var k :| 0 <= k <= MARKER_AT && (card.reliable ==> k == MARKER_AT)
      && card.slots == m[slot := BlankSlot()][slot := Overwrite(BlankSlot(), 0, record[..MARKER_AT][..k])];
    TornByBody(record, k);
    assert card.slots == m[slot := Torn(record, k)];
    if !ok { return; }
    var verify;
    ok, verify := card.Read(slot, 0, MARKER_AT);
    if !ok || verify != record[..MARKER_AT] { return false; }
    BodyIsThere(record, k);
    ok := card.Write(slot, MARKER_AT, record[MARKER_AT..]);
    k :| 0 <= k <= 4 && (card.reliable ==> k == 4)
      && card.slots == m[slot := Torn(record, MARKER_AT)]
                        [slot := Overwrite(Torn(record, MARKER_AT), MARKER_AT, record[MARKER_AT..][..k])];
    TornByMarker(record, k);
    assert card.slots == m[slot := Torn(record, MARKER_AT + k)];
    if !ok { return; }
    ok, verify := card.Read(slot, 0, RECORD_SIZE);
    assert card.slots[slot][0..0+RECORD_SIZE] == card.slots[slot] && Torn(record, RECORD_SIZE) == record;
    ok := ok && verify == record;
  }

  /** A body that reads back right is whole, whatever the write reported. */
  lemma BodyIsThere(record: Bytes, k: nat)
    requires |record| == RECORD_SIZE && k <= MARKER_AT && Torn(record, k)[..MARKER_AT] == record[..MARKER_AT]
    ensures Torn(record, k) == Torn(record, MARKER_AT)
  {
    var s, t := Torn(record, k), Torn(record, MARKER_AT);
    forall i | 0 <= i < RECORD_SIZE ensures s[i] == t[i] {
      if i < MARKER_AT { assert s[i] == s[..MARKER_AT][i] && record[i] == record[..MARKER_AT][i]; }
    }
  }

  lemma TornByBody(record: Bytes, k: nat)
    requires |record| == RECORD_SIZE && k <= MARKER_AT
    ensures Overwrite(BlankSlot(), 0, record[..MARKER_AT][..k]) == Torn(record, k)
  {}

  lemma TornByMarker(record: Bytes, k: nat)
    requires |record| == RECORD_SIZE && k <= 4
    ensures Overwrite(Torn(record, MARKER_AT), MARKER_AT, record[MARKER_AT..][..k]) == Torn(record, MARKER_AT + k)
  {}

  /** settings_save: reload the card's generations, then save with them. The store that the
      rest of the firmware sees is replaced only by an acknowledged save. */
  class Settings {
    var store: Store

    method Save(card: Card, value: SwitchConfig, present: bool, stpSupported: bool) returns (ok: bool)
      requires card as object != this && card.Valid()
      modifies this, card
      ensures card.Valid() && Attempt(old(card.slots), value, card.slots, ok)
      ensures (&& card.reliable && present && (value.stpEnabled ==> stpSupported) && Valid(value)
               && Load(old(card.slots), true, true).writable) ==> ok
      ensures !ok ==> store == old(store)
      ensures ok ==> store.value == value && store.saved
    {
      if (value.stpEnabled && !stpSupported) || !present { return false; }
      ghost var ok0, ok1 := card.readable[0], card.readable[1];
      var next := ConfigLoad(card);
      LoadedIsValid(card.slots, ok0, ok1);
      ok, next := ConfigSave(card, next, value);
      FailedReadsRefuse(old(card.slots), ok0, ok1, value, card.slots, ok);
      if ok { store := next; }
    }
  }

  /** One reload-then-save, whatever fails in it. */
  ghost predicate Attempt(m: Slots, value: SwitchConfig, n: Slots, acked: bool) {
    Saved(m, Load(m, true, true), value, n, acked)
  }

  lemma LoadedIsValid(m: Slots, ok0: bool, ok1: bool)
    ensures Load(m, ok0, ok1).saved ==> Valid(Load(m, ok0, ok1).value)
  {}

  lemma FailedReadsRefuse(m: Slots, ok0: bool, ok1: bool, value: SwitchConfig, n: Slots, acked: bool)
    requires Saved(m, Load(m, ok0, ok1), value, n, acked)
    ensures Attempt(m, value, n, acked)
  {
    if !ok0 || !ok1 { assert !Load(m, ok0, ok1).writable; }
  }

  // ----- whole runs

  datatype Event = Event(value: SwitchConfig, acked: bool)

  /** The cards before and after each attempt. */
  ghost predicate Run(trace: seq<Event>, cards: seq<Slots>) {
    && |cards| == |trace| + 1
    && forall i :: 0 <= i < |trace| ==> Attempted(trace, cards, i)
  }

  ghost predicate Attempted(trace: seq<Event>, cards: seq<Slots>, i: nat)
    requires |cards| == |trace| + 1 && i < |trace|
  {
    Attempt(cards[i], trace[i].value, cards[i+1], trace[i].acked)
  }

  /** The last acknowledged save, or -1. */
  function LastAck(trace: seq<Event>): (a: int)
    ensures -1 <= a < |trace| && (a >= 0 ==> trace[a].acked)
    ensures forall j :: a < j < |trace| ==> !trace[j].acked
  {
    if trace == [] then -1
    else if trace[|trace|-1].acked then |trace| - 1
    else LastAck(trace[..|trace|-1])
  }

  type Reading = Option<(SwitchConfig, Word)>

  predicate Adjacent(a: Reading, b: Reading) {
    a.Some? && b.Some? ==> a.value.1 == Next(b.value.1) || b.value.1 == Next(a.value.1)
  }

  /** Readable slots carry neighbouring generations, modulo 2^32. */
  predicate Neighbours(m: Slots) {
    Adjacent(Decode(m[0]), Decode(m[1]))
  }

  /** Some attempt from index lo on asked for this configuration. */
  predicate AskedSince(trace: seq<Event>, lo: int, value: SwitchConfig) {
    exists j :: 0 <= j < |trace| && lo <= j && trace[j].value == value
  }

  /** A loaded value is acceptable for the saves asked so far. */
  predicate Durable(trace: seq<Event>, saved: bool, value: SwitchConfig) {
    if saved then AskedSince(trace, LastAck(trace), value)
    else LastAck(trace) == -1 && value == Defaults()
  }

  lemma DurableStep(trace: seq<Event>, e: Event, saved: bool, value: SwitchConfig, saved': bool, value': SwitchConfig)
    requires Durable(trace, saved, value)
    requires (saved' && value' == e.value) || (!e.acked && saved' == saved && value' == value)
    ensures Durable(trace + [e], saved', value')
  {
    var u := trace + [e];
    assert u[..|u|-1] == trace && u[|u|-1] == e;
    if !(saved' && value' == e.value) && saved {
      var j :| 0 <= j < |trace| && LastAck(trace) <= j && trace[j].value == value;
      assert u[j].value == value';
    }
  }

  lemma TornIsUnreadable(record: Bytes, k: nat)
    requires |record| == RECORD_SIZE && k < RECORD_SIZE
    ensures Decode(Torn(record, k)) == None
  {
    assert Torn(record, k)[255] == 0xff;
    assert Torn(record, k)[252..][3] == 0xff;
  }

  lemma CompleteIsReadable(value: SwitchConfig, sequence: Word)
    requires Valid(value)
    ensures Decode(Torn(Encode(value, sequence), RECORD_SIZE)) == Some((value, sequence))
  {
    var r := Encode(value, sequence);
    assert Torn(r, RECORD_SIZE) == r;
    DecodeInvertsEncode(value, sequence);
  }

  /** The slot and content that loading picks from two readable or unreadable slots. */
  function Pick(a: Reading, b: Reading): (int, Reading) {
    if b.Some? && (a.None? || Newer(b.value.1, a.value.1)) then (1, b)
    else if a.Some? then (0, a)
    else (-1, None)
  }

  lemma LoadPicks(m: Slots)
    ensures var s, p := Load(m, true, true), Pick(Decode(m[0]), Decode(m[1]));
      && s.slot == p.0 && s.saved == p.1.Some?
      && s.sequence == (if p.1.Some? then p.1.value.1 else 0)
      && s.value == (if p.1.Some? then p.1.value.0 else Defaults())
      && s.writable == (!Foreign(m[0]) && !Foreign(m[1]))
  {}

  lemma NextIsNewer(q: Word)
    ensures Newer(Next(q), q) && !Newer(q, Next(q))
  {}

  /** Replacing the slot not picked: an unreadable replacement keeps the choice, and a readable
      one with the next generation becomes the choice. */
  lemma PickAfterReplace(a: Reading, b: Reading, c: Reading)
    requires Adjacent(a, b)
    requires var (i, r) := Pick(a, b);
      c.Some? ==> c.value.1 == (if r.Some? then Next(r.value.1) else 1)
    ensures var (i, r) := Pick(a, b);
      var (a', b') := if i == 0 then (a, c) else (c, b);
      Adjacent(a', b') && Pick(a', b').1 == if c.Some? then c else r
  {
    if a.Some? { NextIsNewer(a.value.1); }
    if b.Some? { NextIsNewer(b.value.1); }
  }

  /** An interrupted save leaves the loaded value; a completed one replaces it, acknowledged or not. */
  lemma AttemptEffect(m: Slots, value: SwitchConfig, n: Slots, acked: bool)
    requires Neighbours(m) && Attempt(m, value, n, acked)
    ensures Neighbours(n)
    ensures var s, t := Load(m, true, true), Load(n, true, true);
      || (t.saved && t.value == value)
      || (!acked && t.saved == s.saved && t.value == s.value)
  {
    var s := Load(m, true, true);
    if n == m && !acked {
    } else if n == m && s.saved && s.value == value {
    } else {
      var k :| 0 <= k <= RECORD_SIZE && (acked ==> k == RECORD_SIZE)
        && n == m[Target(s) := Torn(Encode(value, Next(s.sequence)), k)];
      ReplaceEffect(m, value, n, k);
    }
  }

  lemma ReplaceEffect(m: Slots, value: SwitchConfig, n: Slots, k: nat)
    requires Neighbours(m) && Valid(value) && k <= RECORD_SIZE
    requires var s := Load(m, true, true); n == m[Target(s) := Torn(Encode(value, Next(s.sequence)), k)]
    ensures Neighbours(n)
    ensures var s, t := Load(m, true, true), Load(n, true, true);
      if k == RECORD_SIZE then t.saved && t.value == value else t.saved == s.saved && t.value == s.value
  {
    var s := Load(m, true, true);
    var r := Torn(Encode(value, Next(s.sequence)), k);
    if k < RECORD_SIZE {
      TornIsUnreadable(Encode(value, Next(s.sequence)), k);
    } else {
      CompleteIsReadable(value, Next(s.sequence));
    }
    LoadPicks(m);
    LoadPicks(n);
    PickAfterReplace(Decode(m[0]), Decode(m[1]), Decode(r));
  }

  /** The card shows what the attempts so far allow it to. */
  ghost predicate Shows(m: Slots, trace: seq<Event>) {
    var s := Load(m, true, true);
    Neighbours(m) && Durable(trace, s.saved, s.value)
  }

  lemma ShowsAfter(m: Slots, trace: seq<Event>, e: Event, n: Slots)
    requires Shows(m, trace) && Attempt(m, e.value, n, e.acked)
    ensures Shows(n, trace + [e])
  {
    AttemptEffect(m, e.value, n, e.acked);
    var s, t := Load(m, true, true), Load(n, true, true);
    DurableStep(trace, e, s.saved, s.value, t.saved, t.value);
  }

  lemma {:induction false} RunIsDurable(trace: seq<Event>, cards: seq<Slots>, i: nat)
    requires Run(trace, cards) && i <= |trace| && Shows(cards[0], [])
    ensures Shows(cards[i], trace[..i])
  {
    if i > 0 {
      RunIsDurable(trace, cards, i - 1);
      assert trace[..i] == trace[..i-1] + [trace[i-1]];
      assert Attempted(trace, cards, i - 1);
      ShowsAfter(cards[i-1], trace[..i-1], trace[i-1], cards[i]);
    }
  }

  /** From two blank slots, over any run of saves each cut at any byte or refused by any failed
      operation: a load whose reads succeed returns the last acknowledged configuration or one
      whose save began after it, and never defaults once a save was acknowledged. */
  lemma SavedSettingsSurvive(trace: seq<Event>, cards: seq<Slots>)
    requires Run(trace, cards) && cards[0] == [BlankSlot(), BlankSlot()]
    ensures var s := Load(cards[|trace|], true, true);
      && (LastAck(trace) >= 0 ==> s.saved)
      && (s.saved ==> AskedSince(trace, LastAck(trace), s.value))
      && (!s.saved ==> s.value == Defaults())
  {
    var r := BlankSlot();
    assert r[..8][0] == 0xff;
    assert !KnownHeader(r);
    LoadPicks(cards[0]);
    RunIsDurable(trace, cards, |trace|);
    assert trace[..|trace|] == trace;
  }

  /** Where the guarantee stops: a cut save leaves the card writable exactly when either nothing
      or at least the twelve header bytes of the new record landed. */
  lemma WritableAfterCutIff(m: Slots, value: SwitchConfig, k: nat)
    requires Load(m, true, true).writable && Valid(value) && k <= RECORD_SIZE
    ensures var s := Load(m, true, true);
      Load(m[Target(s) := Torn(Encode(value, Next(s.sequence)), k)], true, true).writable <==> k == 0 || k >= 12
  {
    var s := Load(m, true, true);
    var e := Encode(value, Next(s.sequence));
    LoadPicks(m);
    LoadPicks(m[Target(s) := Torn(e, k)]);
    EncodeFrame(value, Next(s.sequence));
    Get32InvertsPut32(2);
    TornHeader(e, k);
  }

  lemma TornHeader(e: Bytes, k: nat)
    requires |e| == RECORD_SIZE && KnownHeader(e) && k <= RECORD_SIZE
    ensures Foreign(Torn(e, k)) <==> 0 < k < 12
  {
    var r := Torn(e, k);
    if k == 0 {
      assert r == BlankSlot();
    } else if k >= 12 {
      assert r[..8] == e[..8] && r[8..12] == e[8..12];
    } else {
      assert r[0] == e[..8][0] == MAGIC[0] != 0xff;
      if k < 8 {
        assert r[..8][7] == 0xff;
      } else {
        assert r[8..12][3] == 0xff;
        TopByteSet(r[8..12]);
      }
    }
  }

  lemma TopByteSet(p: Bytes)
    requires |p| == 4 && p[3] == 0xff
    ensures Get32(p) != 1 && Get32(p) != 2
  {}
}
