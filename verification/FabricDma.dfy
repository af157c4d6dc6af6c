/**
 The CPU DMA driver as a state machine. Any number of sending tasks, the interrupt handler, the
 single receiving task and the DMA engine take turns in any order. A step is one access or one
 decision of the source; buffers are filled and copied a byte per step.

 A transmit descriptor and its buffer belong to the engine from the tail write until it reports
 completion. Receive descriptors are counted: the engine owns those handed over and not yet
 completed. The engine may overwrite a receive buffer it owns at any moment.
*/
module FabricDma {
  import opened Common

  const RX_COUNT: nat := 16
  const FRAME_BYTES: nat := 1536

  // ----- frames to send

  datatype RawRequest = Raw(directed: bool, mask: Byte, frame: Bytes)

  predicate Sendable(q: RawRequest) { 14 <= |q.frame| <= 1514 }

  type Request = q: RawRequest | Sendable(q)
    witness Raw(false, 0, [0, 0, 0, 0, 0, 0, 0, 0, 0, 0, 0, 0, 0, 0])

  /** What must reach the wire for a request: the port header, the frame, padding to 60 bytes. */
  function Image(q: Request): (m: Bytes)
    ensures 62 <= |m| <= 1516
  {
    [if q.directed then 0x40 + q.mask % 32 else 0, 0xa5] + q.frame + Zeros(if |q.frame| < 60 then 60 - |q.frame| else 0)
  }

  // ----- transmit state

  /** Where a task is inside send_frame. */
  datatype Pc =
    | Idle | Wanting | Checking | Filling | Arming | Sizing | Draining | Kicking
    | Waiting | Woken | Judging | Failing | Releasing

  /** filled counts the bytes of the request's image already in the bounce buffer. */
  datatype Sender = Sender(pc: Pc, request: Request, filled: nat)

  datatype TxDesc = TxDesc(owned: bool, complete: bool, error: bool, length: nat, data: Bytes)

  datatype Submission = Submission(index: nat, request: Request)

  /** kicked lists the tail writes, wire the frames the engine has sent, both in order. */
  datatype Tx = Tx(senders: map<nat, Sender>, lock: Option<nat>, done: bool, index: nat, ring: seq<TxDesc>,
                   kicked: seq<Submission>, wire: seq<Bytes>)

  // ----- receive state

  datatype Status = Status(error: bool, whole: bool, length: nat)

  /** A frame as the engine stores it, with the tag it pushes to the tag FIFO. */
  datatype Frame = Frame(status: Status, data: Bytes, tag: nat)

  datatype RxDesc = RxDesc(complete: bool, status: Status, data: Bytes)

  /** Where the receiving task is inside fabric_dma_receive. */
  datatype Rc = RxIdle | RxTag | RxCopy | RxClear | RxTail | RxNext

  /** What one consumed descriptor gave the caller, empty when the frame was dropped. */
  datatype Delivery = Delivery(capacity: nat, bytes: Bytes, tag: nat)

  datatype Rx = Rx(rc: Rc, index: nat, ring: seq<RxDesc>, handed: nat, arrived: seq<Frame>, popped: nat,
                   capacity: nat, status: Status, length: nat, out: Bytes, tag: nat, returned: seq<Delivery>)

  datatype State = State(failed: bool, tx: Tx, rx: Rx)

  function Slot(c: nat): (i: nat)
    ensures i < RX_COUNT
  {
    c % RX_COUNT
  }

  /** The length accepted for a frame: 0 drops it. */
  function Accept(st: Status, capacity: nat): (n: nat)
    ensures n <= 1514 && n <= capacity
  {
    if st.error || !st.whole || st.length < 14 || st.length > 1514 || st.length > capacity then 0 else st.length
  }

  function Payload(f: Frame, capacity: nat): Bytes
    requires |f.data| == FRAME_BYTES
  {
    f.data[..Accept(f.status, capacity)]
  }

  // ----- steps

  datatype Step =
    // a sending task t
    | Begin(t: nat, raw: RawRequest) | Lock(t: nat) | Recheck(t: nat) | Fill(t: nat) | Arm(t: nat) | Size(t: nat)
    | Drain(t: nat) | Kick(t: nat) | Timeout(t: nat) | Wake(t: nat) | SeeHealth(t: nat) | Judge(t: nat)
    | Fail(t: nat) | Unlock(t: nat)
    // the interrupt handler
    | Interrupt(receive: bool, pending: bool, error: bool)
    // the engine
    | EngineSent(i: nat, error: bool) | EngineReceived(frame: Frame) | EngineScribbles(i: nat, junk: Bytes)
    // the receiving task
    | Look(capacity: nat) | PopTag | CopyByte | CopyDone | ClearStatus | GiveBack | Advance

  function At(x: Tx, t: nat): Sender {
    if t in x.senders then x.senders[t] else Sender(Idle, Raw(false, 0, Zeros(14)), 0)
  }

  predicate TxShaped(x: Tx) {
    && |x.ring| == 2 && x.index < 2
    && forall i :: 0 <= i < 2 ==> |x.ring[i].data| == FRAME_BYTES && x.ring[i].length <= FRAME_BYTES
  }

  predicate RxShaped(r: Rx) {
    && |r.ring| == RX_COUNT && r.index < RX_COUNT
    && forall i :: 0 <= i < RX_COUNT ==> |r.ring[i].data| == FRAME_BYTES
  }

  /** Receive descriptor i is handed over and not completed. */
  ghost predicate EngineOwnsRx(r: Rx, i: nat) {
    exists c: nat :: |r.arrived| <= c < r.handed && Slot(c) == i
  }

  ghost predicate Enabled(s: State, a: Step) {
    && TxShaped(s.tx) && RxShaped(s.rx)
    && match a
       case Begin(t, _) => At(s.tx, t).pc == Idle
       case Lock(t) => At(s.tx, t).pc == Wanting && s.tx.lock == None
       case Recheck(t) => At(s.tx, t).pc == Checking
       case Fill(t) => At(s.tx, t).pc == Filling
       case Arm(t) => At(s.tx, t).pc == Arming
       case Size(t) => At(s.tx, t).pc == Sizing
       case Drain(t) => At(s.tx, t).pc == Draining
       case Kick(t) => At(s.tx, t).pc == Kicking
       case Timeout(t) => At(s.tx, t).pc == Waiting
       case Wake(t) => At(s.tx, t).pc == Waiting && s.tx.done
       case SeeHealth(t) => At(s.tx, t).pc == Woken
       case Judge(t) => At(s.tx, t).pc == Judging
       case Fail(t) => At(s.tx, t).pc == Failing
       case Unlock(t) => At(s.tx, t).pc == Releasing
       case Interrupt(_, _, _) => true
       case EngineSent(i, _) => i < 2 && s.tx.ring[i].owned
       case EngineReceived(f) => |s.rx.arrived| < s.rx.handed && |f.data| == FRAME_BYTES
       case EngineScribbles(i, junk) => i < RX_COUNT && EngineOwnsRx(s.rx, i) && |junk| == FRAME_BYTES
       case Look(_) => s.rx.rc == RxIdle
       case PopTag => s.rx.rc == RxTag
       case CopyByte => s.rx.rc == RxCopy && |s.rx.out| < s.rx.length <= FRAME_BYTES
       case CopyDone => s.rx.rc == RxCopy && |s.rx.out| >= s.rx.length
       case ClearStatus => s.rx.rc == RxClear
       case GiveBack => s.rx.rc == RxTail
       case Advance => s.rx.rc == RxNext
  }

  function To(x: Tx, t: nat, pc: Pc): Tx {
    x.(senders := x.senders[t := At(x, t).(pc := pc)])
  }

  function Current(x: Tx): TxDesc
    requires |x.ring| == 2 && x.index < 2
  {
    x.ring[x.index]
  }

  function SetCurrent(x: Tx, d: TxDesc): Tx
    requires |x.ring| == 2 && x.index < 2
  {
    x.(ring := x.ring[x.index := d])
  }

  ghost function Do(s: State, a: Step): State
    requires Enabled(s, a)
  {
    match a
    case Interrupt(receive, pending, error) =>
      if !pending then s
      else s.(failed := s.failed || error, tx := s.tx.(done := s.tx.done || !receive || error))
    case Fail(t) => s.(failed := true, tx := To(s.tx, t, Releasing))
    case EngineReceived(_) => s.(rx := RxDo(s, a))
    case EngineScribbles(_, _) => s.(rx := RxDo(s, a))
    case Look(_) => s.(rx := RxDo(s, a))
    case PopTag => s.(rx := RxDo(s, a))
    case CopyByte => s.(rx := RxDo(s, a))
    case CopyDone => s.(rx := RxDo(s, a))
    case ClearStatus => s.(rx := RxDo(s, a))
    case GiveBack => s.(rx := RxDo(s, a))
    case Advance => s.(rx := RxDo(s, a))
    case _ => s.(tx := TxDo(s, a))
  }

  ghost function TxDo(s: State, a: Step): Tx
    requires Enabled(s, a)
  {
    var x := s.tx;
    var d := Current(x);
    match a
    case Begin(t, raw) =>
      if s.failed || !Sendable(raw) then x
      else x.(senders := x.senders[t := Sender(Wanting, raw, 0)])
    case Lock(t) =>
      x.(lock := Some(t), senders := x.senders[t := At(x, t).(pc := Checking, filled := 0)])
    case Recheck(t) => if s.failed then To(x, t, Idle).(lock := None) else To(x, t, Filling)
    case Fill(t) =>
      var w := At(x, t);
      var m := Image(w.request);
      if w.filled < |m| then
        SetCurrent(x.(senders := x.senders[t := w.(filled := w.filled + 1)]),
                   d.(data := d.data[w.filled := m[w.filled]]))
      else To(x, t, Arming)
    case Arm(t) => SetCurrent(To(x, t, Sizing), d.(complete := false, error := false))
    case Size(t) => SetCurrent(To(x, t, Draining), d.(length := |Image(At(x, t).request)|))
    case Drain(t) => To(x, t, Kicking).(done := false)
    case Kick(t) =>
      SetCurrent(To(x, t, Waiting), d.(owned := true)).(kicked := x.kicked + [Submission(x.index, At(x, t).request)])
    case Timeout(t) => To(x, t, Failing)
    case Wake(t) => To(x, t, Woken).(done := false)
    case SeeHealth(t) => To(x, t, if s.failed then Failing else Judging)
    case Judge(t) =>
      if !d.complete then To(x, t, Waiting)
      else if d.error then To(x, t, Failing)
      else To(x, t, Releasing).(index := (x.index + 1) % 2)
    case Unlock(t) => To(x, t, Idle).(lock := None)
    case EngineSent(i, error) =>
      var e := x.ring[i];
      x.(ring := x.ring[i := e.(owned := false, complete := true, error := error)],
         wire := x.wire + [e.data[..e.length]])
    case _ => x
  }

  ghost function RxDo(s: State, a: Step): Rx
    requires Enabled(s, a)
  {
    var r := s.rx;
    var d := r.ring[r.index];
    match a
    case EngineReceived(f) =>
      r.(ring := r.ring[Slot(|r.arrived|) := RxDesc(true, f.status, f.data)], arrived := r.arrived + [f])
    case EngineScribbles(i, junk) => r.(ring := r.ring[i := r.ring[i].(data := junk)])
    case Look(capacity) =>
      if !s.failed && d.complete then r.(rc := RxTag, capacity := capacity, status := d.status) else r
    case PopTag =>
      r.(rc := RxCopy, popped := r.popped + 1, tag := if r.popped < |r.arrived| then r.arrived[r.popped].tag else 0,
         length := Accept(r.status, r.capacity), out := [])
    case CopyByte => r.(out := r.out + [d.data[|r.out|]])
    case CopyDone => r.(rc := RxClear)
    case ClearStatus => r.(rc := RxTail, ring := r.ring[r.index := d.(complete := false)])
    case GiveBack => r.(rc := RxNext, handed := r.handed + 1)
    case Advance =>
      r.(rc := RxIdle, index := (r.index + 1) % RX_COUNT, returned := r.returned + [Delivery(r.capacity, r.out, r.tag)])
    case _ => r
  }

  // ----- the transmit invariant

  /** Holding the lock. */
  predicate Inside(pc: Pc) { !pc.Idle? && !pc.Wanting? }

  /** Health rechecked under the lock, tail not yet written. */
  predicate Preparing(pc: Pc) { pc.Filling? || pc.Arming? || pc.Sizing? || pc.Draining? || pc.Kicking? }

  /** Tail written, outcome not yet known. */
  predicate InFlight(pc: Pc) { pc.Waiting? || pc.Woken? || pc.Judging? }

  predicate Armed(ring: seq<TxDesc>)
    requires |ring| == 2
  {
    ring[0].owned || ring[1].owned
  }

  /** Descriptor index is next, and the engine owns neither. */
  predicate Rested(index: nat, ring: seq<TxDesc>, kicks: nat)
    requires |ring| == 2
  {
    !Armed(ring) && index == kicks % 2
  }

  /** Only the holder of the lock is inside. */
  ghost predicate Exclusive(senders: map<nat, Sender>, lock: Option<nat>) {
    && (forall t :: t in senders && Inside(senders[t].pc) ==> lock == Some(t))
    && (lock.Some? ==> lock.value in senders && Inside(senders[lock.value].pc))
  }

  /** How much of the request is in the descriptor that the holder is preparing. */
  ghost predicate Prepared(d: TxDesc, w: Sender)
    requires |d.data| == FRAME_BYTES
  {
    var m := Image(w.request);
    && (w.pc.Checking? ==> w.filled == 0)
    && (w.pc.Filling? ==> w.filled <= |m| && d.data[..w.filled] == m[..w.filled])
    && (Preparing(w.pc) && !w.pc.Filling? ==> d.data[..|m|] == m)
    && (w.pc.Sizing? || w.pc.Draining? || w.pc.Kicking? ==> !d.complete)
    && (w.pc.Draining? || w.pc.Kicking? ==> d.length == |m|)
  }

  /** What the engine may own follows from how far the holder of the lock has got. */
  ghost predicate Stage(failed: bool, index: nat, ring: seq<TxDesc>, kicked: seq<Submission>, w: Sender)
    requires |ring| == 2 && index < 2 && |ring[index].data| == FRAME_BYTES
  {
    && Prepared(ring[index], w)
    && (Preparing(w.pc) ==> Rested(index, ring, |kicked|))
    && (InFlight(w.pc) ==> 0 < |kicked| && kicked[|kicked| - 1] == Submission(index, w.request))
    && (w.pc.Checking? || w.pc.Releasing? ==> failed || Rested(index, ring, |kicked|))
  }

  /** The engine sends what was submitted, in order and unchanged; only the last may be outstanding. */
  ghost predicate WireInv(ring: seq<TxDesc>, kicked: seq<Submission>, wire: seq<Bytes>)
    requires |ring| == 2
    requires forall i :: 0 <= i < 2 ==> |ring[i].data| == FRAME_BYTES && ring[i].length <= FRAME_BYTES
  {
    && |wire| <= |kicked| <= |wire| + 1
    && (!Armed(ring) ==> |wire| == |kicked|)
    && (forall k :: 0 <= k < |kicked| ==> kicked[k].index == k % 2)
    && (forall k :: 0 <= k < |wire| ==> wire[k] == Image(kicked[k].request))
    && (forall i :: 0 <= i < 2 && ring[i].owned ==>
          && !ring[i].complete
          && |kicked| == |wire| + 1
          && kicked[|wire|].index == i
          && ring[i].data[..ring[i].length] == Image(kicked[|wire|].request))
  }

  ghost predicate TxInv(failed: bool, x: Tx) {
    && TxShaped(x)
    && Exclusive(x.senders, x.lock)
    && (x.lock == None ==> failed || Rested(x.index, x.ring, |x.kicked|))
    && (x.lock.Some? ==> Stage(failed, x.index, x.ring, x.kicked, x.senders[x.lock.value]))
    && WireInv(x.ring, x.kicked, x.wire)
  }

  ghost predicate TxGood(s: State) { TxInv(s.failed, s.tx) }

  lemma BeginKeeps(s: State, a: Step)
    requires TxGood(s) && Enabled(s, a) && a.Begin?
    ensures TxGood(Do(s, a))
  {
  }

  lemma LockKeeps(s: State, t: nat)
    requires TxGood(s) && Enabled(s, Lock(t))
    ensures TxGood(Do(s, Lock(t)))
  {
  }

  lemma RecheckKeeps(s: State, t: nat)
    requires TxGood(s) && Enabled(s, Recheck(t))
    ensures TxGood(Do(s, Recheck(t)))
  {
  }

  /** The holder goes on waiting or gives up, touching nothing but the wake-up flag. */
  lemma MoveKeeps(failed: bool, x: Tx, t: nat, pc: Pc, done: bool)
    requires TxInv(failed, x) && InFlight(At(x, t).pc) && (InFlight(pc) || pc.Failing?)
    ensures TxInv(failed, To(x, t, pc).(done := done))
  {
  }

  lemma DrainKeeps(s: State, t: nat)
    requires TxGood(s) && Enabled(s, Drain(t))
    ensures TxGood(Do(s, Drain(t)))
  {
  }

  lemma WaitKeeps(s: State, t: nat, a: Step)
    requires TxGood(s) && Enabled(s, a) && (a == Timeout(t) || a == Wake(t) || a == SeeHealth(t))
    ensures TxGood(Do(s, a))
  {
    var pc := if a.Timeout? then Failing else if a.Wake? then Woken else if s.failed then Failing else Judging;
    var done := s.tx.done && !a.Wake?;
    MoveKeeps(s.failed, s.tx, t, pc, done);
    assert Do(s, a) == s.(tx := To(s.tx, t, pc).(done := done));
  }

  lemma JudgeKeeps(s: State, t: nat)
    requires TxGood(s) && Enabled(s, Judge(t))
    ensures TxGood(Do(s, Judge(t)))
  {
    var x, d := s.tx, Current(s.tx);
    if d.complete && !d.error {
      AcceptKeeps(s.failed, x, t);
      assert Do(s, Judge(t)) == s.(tx := To(x, t, Releasing).(index := (x.index + 1) % 2));
    } else {
      var pc := if d.complete then Failing else Waiting;
      MoveKeeps(s.failed, x, t, pc, x.done);
      assert Do(s, Judge(t)) == s.(tx := To(x, t, pc).(done := x.done));
    }
  }

  /** A completed frame frees its descriptor, and the other one is next. */
  lemma AcceptKeeps(failed: bool, x: Tx, t: nat)
    requires TxInv(failed, x) && At(x, t).pc == Judging && Current(x).complete
    ensures TxInv(failed, To(x, t, Releasing).(index := (x.index + 1) % 2))
  {
    var k := |x.kicked|;
    assert x.kicked[k - 1] == Submission(x.index, At(x, t).request) && x.index == (k - 1) % 2;
    assert Rested((x.index + 1) % 2, x.ring, k);
  }

  lemma UnlockKeeps(s: State, t: nat)
    requires TxGood(s) && Enabled(s, Unlock(t))
    ensures TxGood(Do(s, Unlock(t)))
  {
  }

  lemma FillPrepares(d: TxDesc, w: Sender, e: TxDesc, v: Sender)
    requires |d.data| == |e.data| == FRAME_BYTES
    requires w.pc == Filling && Prepared(d, w) && w.filled < |Image(w.request)|
    requires e == d.(data := d.data[w.filled := Image(w.request)[w.filled]]) && v == w.(filled := w.filled + 1)
    ensures Prepared(e, v)
  {
    var m := Image(w.request);
    assert e.data[..v.filled] == d.data[..w.filled] + [m[w.filled]];
    assert m[..v.filled] == m[..w.filled] + [m[w.filled]];
  }

  /** The holder goes on preparing: its descriptor becomes d and it becomes w. */
  lemma PrepareKeeps(failed: bool, x: Tx, t: nat, w: Sender, d: TxDesc)
    requires TxInv(failed, x) && Preparing(At(x, t).pc) && Preparing(w.pc)
    requires !d.owned && |d.data| == FRAME_BYTES && d.length <= FRAME_BYTES && Prepared(d, w)
    ensures TxInv(failed, SetCurrent(x.(senders := x.senders[t := w]), d))
  {
    var ring := x.ring[x.index := d];
    assert x.lock == Some(t) && !Armed(x.ring) && !Armed(ring);
    assert WireInv(ring, x.kicked, x.wire);
  }

  lemma FillByteKeeps(failed: bool, x: Tx, t: nat, m: Bytes)
    requires TxInv(failed, x) && At(x, t).pc == Filling && m == Image(At(x, t).request) && At(x, t).filled < |m|
    ensures var w, d := At(x, t), Current(x);
            TxInv(failed, SetCurrent(x.(senders := x.senders[t := w.(filled := w.filled + 1)]),
                                     d.(data := d.data[w.filled := m[w.filled]])))
  {
    var w, d := At(x, t), Current(x);
    var v, e := w.(filled := w.filled + 1), d.(data := d.data[w.filled := m[w.filled]]);
    FillPrepares(d, w, e, v);
    PrepareKeeps(failed, x, t, v, e);
  }

  lemma FillKeeps(s: State, t: nat)
    requires TxGood(s) && Enabled(s, Fill(t))
    ensures TxGood(Do(s, Fill(t)))
  {
    var x, w := s.tx, At(s.tx, t);
    if w.filled < |Image(w.request)| {
      FillByteKeeps(s.failed, x, t, Image(w.request));
    } else {
      PrepareKeeps(s.failed, x, t, w.(pc := Arming), Current(x));
      assert Do(s, Fill(t)).tx.ring == x.ring;
    }
  }

  lemma ArmKeeps(s: State, t: nat)
    requires TxGood(s) && Enabled(s, Arm(t))
    ensures TxGood(Do(s, Arm(t)))
  {
    var d := Current(s.tx).(complete := false, error := false);
    PrepareKeeps(s.failed, s.tx, t, At(s.tx, t).(pc := Sizing), d);
    assert Do(s, Arm(t)) == s.(tx := SetCurrent(To(s.tx, t, Sizing), d));
  }

  lemma SizeKeeps(s: State, t: nat)
    requires TxGood(s) && Enabled(s, Size(t))
    ensures TxGood(Do(s, Size(t)))
  {
    var d := Current(s.tx).(length := |Image(At(s.tx, t).request)|);
    PrepareKeeps(s.failed, s.tx, t, At(s.tx, t).(pc := Draining), d);
    assert Do(s, Size(t)) == s.(tx := SetCurrent(To(s.tx, t, Draining), d));
  }

  /** The tail write: the prepared descriptor is the engine's, and the next on the wire. */
  lemma HandOverKeeps(failed: bool, x: Tx, t: nat)
    requires TxInv(failed, x) && At(x, t).pc == Kicking
    ensures TxInv(failed, SetCurrent(To(x, t, Waiting), Current(x).(owned := true))
                            .(kicked := x.kicked + [Submission(x.index, At(x, t).request)]))
  {
  }

  lemma KickKeeps(s: State, t: nat)
    requires TxGood(s) && Enabled(s, Kick(t))
    ensures TxGood(Do(s, Kick(t)))
  {
    HandOverKeeps(s.failed, s.tx, t);
  }

  lemma FailKeeps(s: State, t: nat)
    requires TxGood(s) && Enabled(s, Fail(t))
    ensures TxGood(Do(s, Fail(t)))
  {
  }

  lemma InterruptKeeps(s: State, a: Step)
    requires TxGood(s) && Enabled(s, a) && a.Interrupt?
    ensures TxGood(Do(s, a))
  {
  }

  lemma EngineSentKeeps(s: State, a: Step)
    requires TxGood(s) && Enabled(s, a) && a.EngineSent?
    ensures TxGood(Do(s, a))
  {
  }

  // ----- the receive invariant

  lemma SlotsDiffer(c: nat, d: nat)
    requires c < d < c + RX_COUNT
    ensures Slot(c) != Slot(d)
  {
  }

  /** Descriptors whose status the receiver has cleared. */
  function Cleared(r: Rx): nat {
    |r.returned| + if r.rc.RxTail? || r.rc.RxNext? then 1 else 0
  }

  ghost predicate Stored(d: RxDesc, f: Frame) { d.complete && d.status == f.status && d.data == f.data }

  /** Every uncleared completion sits intact in its slot; every other slot is incomplete. */
  ghost predicate RingInv(ring: seq<RxDesc>, arrived: seq<Frame>, cleared: nat)
    requires |ring| == RX_COUNT
  {
    && (forall f :: f in arrived ==> |f.data| == FRAME_BYTES)
    && (forall c: nat {:trigger Slot(c)} :: cleared <= c < |arrived| ==> Stored(ring[Slot(c)], arrived[c]))
    && (forall c: nat {:trigger Slot(c)} :: |arrived| <= c < cleared + RX_COUNT ==> !ring[Slot(c)].complete)
  }

  /** The k-th return is the payload and the tag of the k-th frame. */
  ghost predicate Paired(returned: seq<Delivery>, arrived: seq<Frame>) {
    && |returned| <= |arrived|
    && (forall f :: f in arrived ==> |f.data| == FRAME_BYTES)
    && forall k :: 0 <= k < |returned| ==>
         returned[k].bytes == Payload(arrived[k], returned[k].capacity) && returned[k].tag == arrived[k].tag
  }

  /** What the receiver has read so far belongs to the frame it is consuming. */
  ghost predicate Reading(r: Rx)
    requires forall f :: f in r.arrived ==> |f.data| == FRAME_BYTES
  {
    !r.rc.RxIdle? ==>
      && |r.returned| < |r.arrived|
      && var f := r.arrived[|r.returned|];
         && r.status == f.status
         && (!r.rc.RxTag? ==> r.tag == f.tag && r.length == Accept(f.status, r.capacity))
         && (r.rc.RxCopy? ==> |r.out| <= r.length && r.out == f.data[..|r.out|])
         && (r.rc.RxClear? || r.rc.RxTail? || r.rc.RxNext? ==> r.out == Payload(f, r.capacity))
  }

  ghost predicate RxInv(r: Rx) {
    && RxShaped(r)
    && r.index == Slot(|r.returned|)
    && r.handed == RX_COUNT + |r.returned| + (if r.rc.RxNext? then 1 else 0)
    && r.popped == |r.returned| + (if r.rc.RxIdle? || r.rc.RxTag? then 0 else 1)
    && |r.arrived| <= r.handed
    && RingInv(r.ring, r.arrived, Cleared(r))
    && Paired(r.returned, r.arrived)
    && Reading(r)
  }

  lemma EngineReceivedKeeps(s: State, f: Frame)
    requires RxInv(s.rx) && Enabled(s, EngineReceived(f))
    ensures RxInv(Do(s, EngineReceived(f)).rx)
  {
    var r, q := s.rx, Do(s, EngineReceived(f)).rx;
    var n := |r.arrived|;
    forall c: nat | Cleared(r) <= c < n + 1 ensures Stored(q.ring[Slot(c)], q.arrived[c]) {
      if c < n { SlotsDiffer(c, n); }
    }
    forall c: nat | n + 1 <= c < Cleared(r) + RX_COUNT ensures !q.ring[Slot(c)].complete {
      SlotsDiffer(n, c);
    }
  }

  lemma EngineScribblesKeeps(s: State, i: nat, junk: Bytes)
    requires RxInv(s.rx) && Enabled(s, EngineScribbles(i, junk))
    ensures RxInv(Do(s, EngineScribbles(i, junk)).rx)
  {
    var r, q := s.rx, Do(s, EngineScribbles(i, junk)).rx;
    var e: nat :| |r.arrived| <= e < r.handed && Slot(e) == i;
    forall c: nat | Cleared(r) <= c < |r.arrived| ensures Stored(q.ring[Slot(c)], q.arrived[c]) {
      SlotsDiffer(c, e);
    }
  }

  lemma LookKeeps(s: State, capacity: nat)
    requires RxInv(s.rx) && Enabled(s, Look(capacity))
    ensures RxInv(Do(s, Look(capacity)).rx)
  {
  }

  lemma PopTagKeeps(s: State)
    requires RxInv(s.rx) && Enabled(s, PopTag)
    ensures RxInv(Do(s, PopTag).rx)
  {
  }

  lemma CopyKeeps(s: State, a: Step)
    requires RxInv(s.rx) && Enabled(s, a) && (a.CopyByte? || a.CopyDone?)
    ensures RxInv(Do(s, a).rx)
  {
    var r := s.rx;
    var f := r.arrived[|r.returned|];
    assert Stored(r.ring[Slot(|r.returned|)], f);
    if a.CopyByte? {
      assert f.data[..|r.out| + 1] == f.data[..|r.out|] + [f.data[|r.out|]];
    }
  }

  lemma ClearStatusKeeps(s: State)
    requires RxInv(s.rx) && Enabled(s, ClearStatus)
    ensures RxInv(Do(s, ClearStatus).rx)
  {
    var r, q := s.rx, Do(s, ClearStatus).rx;
    var n := |r.returned|;
    forall c: nat | n + 1 <= c < |r.arrived| ensures Stored(q.ring[Slot(c)], q.arrived[c]) {
      SlotsDiffer(n, c);
    }
    forall c: nat | |r.arrived| <= c < n + 1 + RX_COUNT ensures !q.ring[Slot(c)].complete {
      if c < n + RX_COUNT { SlotsDiffer(n, c); }
    }
  }

  lemma GiveBackKeeps(s: State)
    requires RxInv(s.rx) && Enabled(s, GiveBack)
    ensures RxInv(Do(s, GiveBack).rx)
  {
  }

  lemma AdvanceKeeps(s: State)
    requires RxInv(s.rx) && Enabled(s, Advance)
    ensures RxInv(Do(s, Advance).rx)
  {
    var r, q := s.rx, Do(s, Advance).rx;
    NextSlot(|r.returned|);
    assert Cleared(q) == Cleared(r);
    PairedNext(r.returned, r.arrived, q.returned[|r.returned|]);
  }

  lemma NextSlot(c: nat)
    ensures (Slot(c) + 1) % RX_COUNT == Slot(c + 1)
  {
  }

  lemma PairedNext(returned: seq<Delivery>, arrived: seq<Frame>, d: Delivery)
    requires Paired(returned, arrived) && |returned| < |arrived|
    requires d.bytes == Payload(arrived[|returned|], d.capacity) && d.tag == arrived[|returned|].tag
    ensures Paired(returned + [d], arrived)
  {
  }

  // ----- runs

  /** fabric_dma_init: rings set up, every receive descriptor handed over, nothing sent. */
  function Init(): State {
    State(false,
          Tx(map[], None, false, 0, seq(2, _ => TxDesc(false, false, false, 0, Zeros(FRAME_BYTES))), [], []),
          Rx(RxIdle, 0, seq(RX_COUNT, _ => RxDesc(false, Status(false, false, 0), Zeros(FRAME_BYTES))), RX_COUNT,
             [], 0, 0, Status(false, false, 0), 0, [], 0, []))
  }

  ghost predicate Inv(s: State) { TxGood(s) && RxInv(s.rx) }

  lemma InitHolds()
    ensures Inv(Init())
  {
  }

  lemma TxStepKeeps(s: State, a: Step)
    requires Inv(s) && Enabled(s, a)
    ensures TxGood(Do(s, a))
  {
    match a
    case Begin(_, _) => BeginKeeps(s, a);
    case Lock(t) => LockKeeps(s, t);
    case Recheck(t) => RecheckKeeps(s, t);
    case Fill(t) => FillKeeps(s, t);
    case Arm(t) => ArmKeeps(s, t);
    case Size(t) => SizeKeeps(s, t);
    case Drain(t) => DrainKeeps(s, t);
    case Kick(t) => KickKeeps(s, t);
    case Timeout(t) => WaitKeeps(s, t, a);
    case Wake(t) => WaitKeeps(s, t, a);
    case SeeHealth(t) => WaitKeeps(s, t, a);
    case Judge(t) => JudgeKeeps(s, t);
    case Fail(t) => FailKeeps(s, t);
    case Unlock(t) => UnlockKeeps(s, t);
    case Interrupt(_, _, _) => InterruptKeeps(s, a);
    case EngineSent(_, _) => EngineSentKeeps(s, a);
    case _ =>
  }

  lemma RxStepKeeps(s: State, a: Step)
    requires Inv(s) && Enabled(s, a)
    ensures RxInv(Do(s, a).rx)
  {
    match a
    case EngineReceived(f) => EngineReceivedKeeps(s, f);
    case EngineScribbles(i, junk) => EngineScribblesKeeps(s, i, junk);
    case Look(capacity) => LookKeeps(s, capacity);
    case PopTag => PopTagKeeps(s);
    case CopyByte => CopyKeeps(s, a);
    case CopyDone => CopyKeeps(s, a);
    case ClearStatus => ClearStatusKeeps(s);
    case GiveBack => GiveBackKeeps(s);
    case Advance => AdvanceKeeps(s);
    case _ =>
  }

  /** The steps can be taken one after the other from s. */
  ghost predicate Runs(s: State, run: seq<Step>)
    decreases |run|
  {
    run == [] || (Enabled(s, run[0]) && Runs(Do(s, run[0]), run[1..]))
  }

  ghost function After(s: State, run: seq<Step>): State
    requires Runs(s, run)
    decreases |run|
  {
    if run == [] then s else After(Do(s, run[0]), run[1..])
  }

  lemma {:induction false} RunKeeps(s: State, run: seq<Step>)
    requires Inv(s) && Runs(s, run)
    ensures Inv(After(s, run))
    decreases |run|
  {
    if run != [] {
      TxStepKeeps(s, run[0]);
      RxStepKeeps(s, run[0]);
      RunKeeps(Do(s, run[0]), run[1..]);
    }
  }

  // ----- ownership

  datatype Cell = TxDescriptor(i: nat) | TxBuffer(i: nat) | RxDescriptor(i: nat) | RxBuffer(i: nat)

  ghost predicate EngineOwns(s: State, c: Cell) {
    match c
    case TxDescriptor(i) => i < |s.tx.ring| && s.tx.ring[i].owned
    case TxBuffer(i) => i < |s.tx.ring| && s.tx.ring[i].owned
    case RxDescriptor(i) => EngineOwnsRx(s.rx, i)
    case RxBuffer(i) => EngineOwnsRx(s.rx, i)
  }

  /** What a step of the CPU writes, and the receive buffer it reads. */
  function Touches(s: State, a: Step): set<Cell> {
    match a
    case Fill(_) => {TxBuffer(s.tx.index)}
    case Arm(_) => {TxDescriptor(s.tx.index)}
    case Size(_) => {TxDescriptor(s.tx.index)}
    case Kick(_) => {TxDescriptor(s.tx.index), TxBuffer(s.tx.index)}
    case CopyByte => {RxBuffer(s.rx.index)}
    case ClearStatus => {RxDescriptor(s.rx.index)}
    case _ => {}
  }

  predicate ByEngine(a: Step) { a.EngineSent? || a.EngineReceived? || a.EngineScribbles? }

  /** Steps that prepare or hand over a transmit descriptor. */
  predicate Prepares(a: Step) { a.Fill? || a.Arm? || a.Size? || a.Kick? }

  lemma OthersLeaveTxRing(s: State, a: Step)
    requires Enabled(s, a) && !ByEngine(a) && !Prepares(a)
    ensures Do(s, a).tx.ring == s.tx.ring
  {
  }

  lemma PreparationIsTouched(s: State, a: Step, i: nat)
    requires Enabled(s, a) && Prepares(a) && i < 2
    ensures Do(s, a).tx.ring[i].data != s.tx.ring[i].data ==> TxBuffer(i) in Touches(s, a)
    ensures Do(s, a).tx.ring[i] != s.tx.ring[i].(data := Do(s, a).tx.ring[i].data) ==> TxDescriptor(i) in Touches(s, a)
  {
  }

  /** Touches leaves nothing out: what a CPU step changes in either ring is among its cells. */
  lemma TxTouchesCoverChanges(s: State, a: Step, i: nat)
    requires Enabled(s, a) && !ByEngine(a) && i < 2
    ensures Do(s, a).tx.ring[i].data != s.tx.ring[i].data ==> TxBuffer(i) in Touches(s, a)
    ensures Do(s, a).tx.ring[i] != s.tx.ring[i].(data := Do(s, a).tx.ring[i].data) ==> TxDescriptor(i) in Touches(s, a)
  {
    if Prepares(a) { PreparationIsTouched(s, a, i); } else { OthersLeaveTxRing(s, a); }
  }

  lemma RxTouchesCoverChanges(s: State, a: Step, i: nat)
    requires Enabled(s, a) && !ByEngine(a) && i < RX_COUNT
    ensures Do(s, a).rx.ring[i].data == s.rx.ring[i].data
    ensures Do(s, a).rx.ring[i] != s.rx.ring[i] ==> RxDescriptor(i) in Touches(s, a)
  {
  }

  /** Only a task that prepares a frame under the lock touches a transmit cell, and then the engine owns none. */
  lemma TxTouchesFree(s: State, t: nat, a: Step, c: Cell)
    requires TxGood(s) && Enabled(s, a) && (a == Fill(t) || a == Arm(t) || a == Size(t) || a == Kick(t))
             && c in Touches(s, a)
    ensures !EngineOwns(s, c)
  {
    assert Preparing(At(s.tx, t).pc) && s.tx.lock == Some(t);
    assert !Armed(s.tx.ring);
  }

  /** The descriptor being consumed is the oldest completed one, so it is not among the engine's. */
  lemma RxTouchesFree(s: State)
    requires RxInv(s.rx) && (s.rx.rc.RxCopy? || s.rx.rc.RxClear?)
    ensures !EngineOwnsRx(s.rx, s.rx.index)
  {
    forall e: nat | |s.rx.arrived| <= e < s.rx.handed ensures Slot(e) != s.rx.index {
      SlotsDiffer(|s.rx.returned|, e);
    }
  }

  lemma TouchesFree(s: State, a: Step, c: Cell)
    requires Inv(s) && Enabled(s, a) && c in Touches(s, a)
    ensures !EngineOwns(s, c)
  {
    match a
    case Fill(t) => TxTouchesFree(s, t, a, c);
    case Arm(t) => TxTouchesFree(s, t, a, c);
    case Size(t) => TxTouchesFree(s, t, a, c);
    case Kick(t) => TxTouchesFree(s, t, a, c);
    case CopyByte => RxTouchesFree(s);
    case ClearStatus => RxTouchesFree(s);
    case _ =>
  }

  /** In every interleaving the CPU stays off whatever the engine owns. */
  lemma EveryRunIsSafe(run: seq<Step>, a: Step, c: Cell)
    requires Runs(Init(), run) && Enabled(After(Init(), run), a) && c in Touches(After(Init(), run), a)
    ensures !EngineOwns(After(Init(), run), c)
  {
    InitHolds();
    RunKeeps(Init(), run);
    TouchesFree(After(Init(), run), a, c);
  }

  lemma OwnedTxUnchanged(s: State, a: Step, i: nat)
    requires Enabled(s, a) && !ByEngine(a) && (forall c :: c in Touches(s, a) ==> !EngineOwns(s, c))
    requires i < 2 && s.tx.ring[i].owned
    ensures Do(s, a).tx.ring[i] == s.tx.ring[i]
  {
    TxTouchesCoverChanges(s, a, i);
    assert EngineOwns(s, TxBuffer(i)) && EngineOwns(s, TxDescriptor(i));
  }

  lemma OwnedRxUnchanged(s: State, a: Step, i: nat)
    requires Enabled(s, a) && !ByEngine(a) && (forall c :: c in Touches(s, a) ==> !EngineOwns(s, c))
    requires i < RX_COUNT && EngineOwnsRx(s.rx, i)
    ensures Do(s, a).rx.ring[i] == s.rx.ring[i]
  {
    RxTouchesCoverChanges(s, a, i);
    assert EngineOwns(s, RxDescriptor(i));
  }

  /** Ring position i is, in each direction, as it was before if the engine owned it. */
  ghost predicate OwnedKept(s: State, t: State, i: nat)
    requires i < RX_COUNT
  {
    && |s.tx.ring| == |t.tx.ring| == 2 && |s.rx.ring| == |t.rx.ring| == RX_COUNT
    && (i < 2 && s.tx.ring[i].owned ==> t.tx.ring[i] == s.tx.ring[i])
    && (EngineOwnsRx(s.rx, i) ==> t.rx.ring[i] == s.rx.ring[i])
  }

  lemma OwnedStaysKept(s: State, a: Step, i: nat)
    requires Enabled(s, a) && !ByEngine(a) && (forall c :: c in Touches(s, a) ==> !EngineOwns(s, c))
    requires i < RX_COUNT
    ensures OwnedKept(s, Do(s, a), i)
  {
    if i < 2 && s.tx.ring[i].owned { OwnedTxUnchanged(s, a, i); }
    if EngineOwnsRx(s.rx, i) { OwnedRxUnchanged(s, a, i); }
  }

  /** In every interleaving a step of the CPU leaves every descriptor and buffer that the engine owns as it is. */
  lemma EngineCellsUnchanged(run: seq<Step>, a: Step, i: nat)
    requires Runs(Init(), run) && Enabled(After(Init(), run), a) && !ByEngine(a) && i < RX_COUNT
    ensures OwnedKept(After(Init(), run), Do(After(Init(), run), a), i)
  {
    forall c | c in Touches(After(Init(), run), a) ensures !EngineOwns(After(Init(), run), c) {
      EveryRunIsSafe(run, a, c);
    }
    OwnedStaysKept(After(Init(), run), a, i);
  }

  /** At most one task is inside send_frame's critical section. */
  lemma SendersExclude(run: seq<Step>, t: nat, u: nat)
    requires Runs(Init(), run)
    requires Inside(At(After(Init(), run).tx, t).pc) && Inside(At(After(Init(), run).tx, u).pc)
    ensures t == u
  {
    InitHolds();
    RunKeeps(Init(), run);
  }

  // ----- interrupts

  /** The handler does nothing without a pending cause, fails closed on an error of either channel, and wakes
      the sender on an error or a transmit completion. */
  lemma InterruptEffect(s: State, receive: bool, pending: bool, error: bool)
    requires Enabled(s, Interrupt(receive, pending, error))
    ensures var t := Do(s, Interrupt(receive, pending, error));
            && (t.failed <==> s.failed || (pending && error))
            && (t.tx.done <==> s.tx.done || (pending && (error || !receive)))
            && t.rx == s.rx && t.tx == s.tx.(done := t.tx.done)
  {}

  lemma FailureStays(s: State, a: Step)
    requires Enabled(s, a) && s.failed
    ensures Do(s, a).failed
  {}

  /** A sender that waits and has been woken. */
  ghost predicate Roused(s: State, t: nat) { s.tx.done && At(s.tx, t).pc == Waiting }

  /** A step that only the holder of the lock takes, or that takes the lock. */
  predicate ByHolder(a: Step) {
    || a.Lock? || a.Recheck? || a.Fill? || a.Arm? || a.Size? || a.Drain? || a.Kick? || a.Timeout? || a.Wake?
    || a.SeeHealth? || a.Judge? || a.Fail? || a.Unlock?
  }

  /** While one sender waits, no other takes such a step. */
  lemma OthersStayOut(s: State, a: Step, t: nat)
    requires Exclusive(s.tx.senders, s.tx.lock) && Enabled(s, a) && At(s.tx, t).pc == Waiting
    requires a != Wake(t) && a != Timeout(t)
    ensures !ByHolder(a)
  {
    assert s.tx.lock == Some(t);
  }

  lemma RousedStays(s: State, a: Step, t: nat)
    requires Enabled(s, a) && Roused(s, t) && !ByHolder(a)
    ensures Roused(Do(s, a), t)
  {}

  /** No wake-up is lost: whatever the others do, a waiting sender that was woken can still take it. */
  lemma {:induction false} WakeIsNotLost(s: State, run: seq<Step>, t: nat)
    requires Inv(s) && Runs(s, run) && Roused(s, t) && Wake(t) !in run && Timeout(t) !in run
    ensures Inv(After(s, run)) && Roused(After(s, run), t) && Enabled(After(s, run), Wake(t))
    decreases |run|
  {
    if run != [] {
      OthersStayOut(s, run[0], t);
      RousedStays(s, run[0], t);
      TxStepKeeps(s, run[0]);
      RxStepKeeps(s, run[0]);
      WakeIsNotLost(Do(s, run[0]), run[1..], t);
    }
  }

  // ----- what reaches the wire

  /** The octets on the wire for a request: flags and mask, the magic octet, the frame, then zeros up to 62. */
  ghost predicate Carries(w: Bytes, q: Request) {
    && |w| == 2 + (if |q.frame| < 60 then 60 else |q.frame|)
    && w[0] == (if q.directed then 0x40 + q.mask % 0x20 else 0) && w[1] == 0xa5
    && w[2..2 + |q.frame|] == q.frame
    && forall i :: 2 + |q.frame| <= i < |w| ==> w[i] == 0
  }

  /** The wire carries exactly the submitted requests in order, each a fresh image with no byte of an
      earlier frame, and submissions alternate between the two descriptors. */
  lemma WireCarriesRequests(run: seq<Step>)
    requires Runs(Init(), run)
    ensures var x := After(Init(), run).tx;
            && |x.wire| <= |x.kicked| <= |x.wire| + 1
            && (forall k :: 0 <= k < |x.wire| ==> Carries(x.wire[k], x.kicked[k].request))
            && (forall k :: 0 <= k < |x.kicked| ==> x.kicked[k].index == k % 2)
  {
    InitHolds();
    RunKeeps(Init(), run);
  }

  lemma CompleteMeansSent(failed: bool, x: Tx, t: nat)
    requires TxInv(failed, x) && At(x, t).pc == Judging && Current(x).complete
    ensures 0 < |x.wire| == |x.kicked| && x.wire[|x.wire| - 1] == Image(At(x, t).request)
  {
    var k := |x.kicked|;
    assert x.kicked[k - 1] == Submission(x.index, At(x, t).request);
    assert !Armed(x.ring);
  }

  /** send_frame reports success only when its own frame is the last one on the wire. */
  lemma SuccessMeansSent(run: seq<Step>, t: nat)
    requires Runs(Init(), run)
    requires var s := After(Init(), run);
             Enabled(s, Judge(t)) && At(Do(s, Judge(t)).tx, t).pc == Releasing
    ensures var x := After(Init(), run).tx;
            0 < |x.wire| == |x.kicked| && x.wire[|x.wire| - 1] == Image(At(x, t).request)
  {
    InitHolds();
    RunKeeps(Init(), run);
    var s := After(Init(), run);
    CompleteMeansSent(s.failed, s.tx, t);
  }

  // ----- after a failure

  /** Tail writes still to come from the task that holds the lock. */
  ghost function Allowance(x: Tx): nat {
    if x.lock.Some? && Preparing(At(x, x.lock.value).pc) then 1 else 0
  }

  lemma KickSpends(s: State, t: nat)
    requires Exclusive(s.tx.senders, s.tx.lock) && Enabled(s, Kick(t))
    ensures |Do(s, Kick(t)).tx.kicked| == |s.tx.kicked| + 1
    ensures Allowance(s.tx) == 1 && Allowance(Do(s, Kick(t)).tx) == 0
  {
  }

  /** Steps by which a task enters or leaves the critical section. */
  predicate AtTheDoor(a: Step) { a.Begin? || a.Lock? || a.Recheck? || a.Fail? || a.Unlock? }

  /** A failed driver passes no further task through the recheck. */
  lemma DoorStaysShut(s: State, a: Step)
    requires Exclusive(s.tx.senders, s.tx.lock) && Enabled(s, a) && s.failed && AtTheDoor(a)
    ensures Do(s, a).failed && Do(s, a).tx.kicked == s.tx.kicked
    ensures Allowance(Do(s, a).tx) <= Allowance(s.tx)
  {
  }

  /** Steps of the holder of the lock between the recheck and the release, but for the tail write. */
  predicate WithinTheRoom(a: Step) {
    a.Fill? || a.Arm? || a.Size? || a.Drain? || a.Timeout? || a.Wake? || a.SeeHealth? || a.Judge?
  }

  lemma HolderSpendsNothing(s: State, a: Step)
    requires Exclusive(s.tx.senders, s.tx.lock) && Enabled(s, a) && s.failed && WithinTheRoom(a)
    ensures Do(s, a).failed && Do(s, a).tx.kicked == s.tx.kicked
    ensures Allowance(Do(s, a).tx) <= Allowance(s.tx)
  {
    var t := a.t;
    assert s.tx.lock == Some(t) && Do(s, a).tx.lock == Some(t);
    assert Preparing(At(Do(s, a).tx, t).pc) ==> Preparing(At(s.tx, t).pc);
  }

  lemma OthersSpendNothing(s: State, a: Step)
    requires Enabled(s, a) && s.failed && !AtTheDoor(a) && !WithinTheRoom(a) && !a.Kick?
    ensures Do(s, a).failed && Do(s, a).tx.kicked == s.tx.kicked
    ensures Allowance(Do(s, a).tx) == Allowance(s.tx)
  {
  }

  /** Once the driver has failed, only a task already past the recheck can still submit, and only once. */
  lemma {:induction false} AfterFailure(s: State, run: seq<Step>)
    requires Inv(s) && s.failed && Runs(s, run)
    ensures After(s, run).failed
    ensures |After(s, run).tx.kicked| + Allowance(After(s, run).tx) <= |s.tx.kicked| + Allowance(s.tx)
    decreases |run|
  {
    if run != [] {
      if run[0].Kick? {
        KickSpends(s, run[0].t);
      } else if AtTheDoor(run[0]) {
        DoorStaysShut(s, run[0]);
      } else if WithinTheRoom(run[0]) {
        HolderSpendsNothing(s, run[0]);
      } else {
        OthersSpendNothing(s, run[0]);
      }
      TxStepKeeps(s, run[0]);
      RxStepKeeps(s, run[0]);
      AfterFailure(Do(s, run[0]), run[1..]);
    }
  }

  /** A task that takes the lock after the failure submits nothing, nor does anyone from then on. */
  lemma LateSenderSubmitsNothing(run: seq<Step>, t: nat, rest: seq<Step>)
    requires Runs(Init(), run) && After(Init(), run).failed && Enabled(After(Init(), run), Lock(t))
    requires Runs(After(Init(), run), [Lock(t)] + rest)
    ensures |After(After(Init(), run), [Lock(t)] + rest).tx.kicked| <= |After(Init(), run).tx.kicked|
  {
    InitHolds();
    RunKeeps(Init(), run);
    AfterFailure(After(Init(), run), [Lock(t)] + rest);
  }

  // ----- what the receiver returns

  /** The k-th return is the payload of the k-th frame, or nothing if that frame is unusable, always
      with the k-th tag, and descriptors are taken in ring order. */
  lemma TagsNeverSlip(run: seq<Step>, k: nat)
    requires Runs(Init(), run) && k < |After(Init(), run).rx.returned|
    ensures var r := After(Init(), run).rx;
            && |r.returned| <= |r.arrived| && |r.arrived[k].data| == FRAME_BYTES
            && r.returned[k].bytes == (
                 var st := r.arrived[k].status;
                 if !st.error && st.whole && 14 <= st.length <= 1514 && st.length <= r.returned[k].capacity
                 then r.arrived[k].data[..st.length] else [])
            && r.returned[k].tag == r.arrived[k].tag
            && r.index == |r.returned| % 16
  {
    InitHolds();
    RunKeeps(Init(), run);
  }
}
