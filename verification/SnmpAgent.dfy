/**
 The SNMPv2c agent: variable bindings, the response envelope, request parsing and the
 processing of GET, GETNEXT, SET and GETBULK.
*/
module SnmpAgent {
  import opened Common
  import opened Ber
  import opened SnmpWriter
  import opened SnmpMib

  const PACKET_MAX: nat := 1400
  const REQUEST_MAX: nat := 32
  const RESPONSE_MAX: nat := 64
  const RESERVED: nat := 112

  // ----- variable bindings

  /** One variable binding of a reply: a name with an object's value, or with an exception. */
  datatype Answer = Answer(name: Oid, value: Option<Object>, exception: Byte)

  predicate AnswerOk(a: Answer) {
    Legal(a.name) && (a.value.Some? ==> ObjectOk(a.value.value))
  }

  const PROJECT_ROOT: Oid := [1, 3, 6, 1, 4, 1, 32473, 1]

  function ValueData(a: Answer): Bytes
    requires AnswerOk(a)
  {
    match a.value
    case None => [a.exception, 0]
    case Some(x) =>
      if x.tag == 4 then Print(4, x.text)
      else if x.tag == 6 then OidData(PROJECT_ROOT)
      else NumberData(x.tag, x.number)
  }

  /** Room the value needs while it is written. */
  function ValuePeak(a: Answer): nat
    requires AnswerOk(a)
  {
    match a.value
    case None => 2
    case Some(x) =>
      if x.tag == 4 then OPEN + |x.text|
      else if x.tag == 6 then OPEN + |OidContent(PROJECT_ROOT)|
      else |NumberData(x.tag, x.number)|
  }

  lemma ValueSize(a: Answer)
    requires AnswerOk(a)
    ensures 2 <= |ValueData(a)| <= ValuePeak(a) <= 0xf004 && |OidData(a.name)| == 2 + |OidContent(a.name)| <= 117
  {
    OidSize(a.name);
    if a.value.Some? {
      if a.value.value.tag == 6 { OidSize(PROJECT_ROOT); }
      NumberIsShort(a.value.value.tag, a.value.value.number);
    }
  }

  function BindingContent(a: Answer): Bytes
    requires AnswerOk(a)
  {
    OidData(a.name) + ValueData(a)
  }

  function BindingData(a: Answer): Bytes
    requires AnswerOk(a)
  {
    ValueSize(a);
    Print(0x30, BindingContent(a))
  }

  function BindingPeak(a: Answer): nat
    requires AnswerOk(a)
  {
    OPEN + |OidData(a.name)| + ValuePeak(a)
  }

  method PutValue(w: Writer, a: Answer)
    requires w.Valid() && AnswerOk(a)
    modifies w, w.buf
    ensures w.Valid()
    ensures Effect(w.cap, old(w.Contents()), old(w.ok), w.Contents(), w.ok, ValuePeak(a), ValueData(a))
  {
    ghost var b, okb := w.Contents(), w.ok;
    match a.value
    case None =>
      w.Put([a.exception]);
      ghost var c, okc := w.Contents(), w.ok;
      w.Put([0]);
      EffectThen(w.cap, b, okb, c, okc, w.Contents(), w.ok, 1, [a.exception], 1, [0]);
      assert [a.exception] + [0] == ValueData(a);
    case Some(x) =>
      if x.tag == 4 {
        var pos := w.Begin(4);
        ghost var c, okc := w.Contents(), w.ok;
        w.Put(x.text);
        ghost var d, okd := w.Contents(), w.ok;
        w.End(pos, b, 4, x.text);
        Bracketed(w.cap, b, okb, c, okc, d, okd, w.Contents(), w.ok, 4, |x.text|, x.text);
      } else if x.tag == 6 {
        w.PutOid(PROJECT_ROOT);
      } else {
        w.Number(x.tag, x.number);
      }
  }

  method PutBinding(w: Writer, a: Answer)
    requires w.Valid() && AnswerOk(a)
    modifies w, w.buf
    ensures w.Valid()
    ensures Effect(w.cap, old(w.Contents()), old(w.ok), w.Contents(), w.ok, BindingPeak(a), BindingData(a))
  {
    ghost var b, okb := w.Contents(), w.ok;
    var start := w.Begin(0x30);
    ghost var c, okc := w.Contents(), w.ok;
    w.PutOid(a.name);
    ghost var d, okd := w.Contents(), w.ok;
    PutValue(w, a);
    ghost var e, oke := w.Contents(), w.ok;
    ValueSize(a);
    EffectThen(w.cap, c, okc, d, okd, e, oke, OPEN + |OidContent(a.name)|, OidData(a.name), ValuePeak(a), ValueData(a));
    w.End(start, b, 0x30, BindingContent(a));
    Bracketed(w.cap, b, okb, c, okc, e, oke, w.Contents(), w.ok, 0x30, |OidData(a.name)| + ValuePeak(a),
      BindingContent(a));
  }

  // ----- the response envelope

  datatype Reply = Reply(id: int, error: nat, index: nat, list: Bytes)

  predicate ReplyOk(r: Reply) {
    MIN_INT32 <= r.id <= MAX_INT32 && r.error <= MAX_INT32 && r.index <= MAX_INT32 && |r.list| <= 0xf000
  }

  /** A signed 32-bit value as the 64-bit word number() is given. */
  function Word64(v: int): nat
    requires MIN_INT32 <= v <= MAX_INT32
  {
    if v < 0 then v + WORD64 else v
  }

  function IntegerData(v: int): Bytes
    requires MIN_INT32 <= v <= MAX_INT32
  {
    NumberData(2, Word64(v))
  }

  lemma IntegerDataIs(v: int)
    requires MIN_INT32 <= v <= MAX_INT32
    ensures |IntegerOctets(v)| <= 4 && IntegerData(v) == PrintNumber(2, v)
    ensures 3 <= |IntegerData(v)| <= 6 && (0 <= v < 128 ==> |IntegerData(v)| == 3)
  {
    Int32Short(v);
  }

  function PduContent(r: Reply): Bytes
    requires ReplyOk(r)
  {
    IntegerData(r.id) + IntegerData(r.error) + IntegerData(r.index) + Print(0x30, r.list)
  }

  function PduHead(r: Reply): Bytes
    requires ReplyOk(r)
  {
    IntegerData(r.id) + IntegerData(r.error) + IntegerData(r.index)
  }

  predicate CommunityOk(community: Bytes) { 1 <= |community| <= 64 }

  lemma ReplySizes(r: Reply)
    requires ReplyOk(r)
    ensures 9 <= |PduHead(r)| <= 18 && |PduContent(r)| <= |PduHead(r)| + 4 + |r.list| < 0xf100
    ensures PduContent(r) == PduHead(r) + Print(0x30, r.list)
    ensures r.error < 128 && r.index < 128 ==> |PduHead(r)| <= 12
  {
    IntegerDataIs(r.id);
    IntegerDataIs(r.error);
    IntegerDataIs(r.index);
  }

  function MessageHead(community: Bytes): Bytes
    requires CommunityOk(community)
  {
    IntegerData(1) + Print(4, community)
  }

  function MessageContent(community: Bytes, r: Reply): Bytes
    requires CommunityOk(community) && ReplyOk(r)
  {
    ReplySizes(r);
    MessageHead(community) + Print(0xa2, PduContent(r))
  }

  function Message(community: Bytes, r: Reply): Bytes
    requires CommunityOk(community) && ReplyOk(r)
  {
    ReplySizes(r);
    IntegerDataIs(1);
    Print(0x30, MessageContent(community, r))
  }

  /** Room the whole message needs while it is written: three open headers. */
  function MessagePeak(community: Bytes, r: Reply): nat
    requires CommunityOk(community) && ReplyOk(r)
  {
    OPEN + |MessageHead(community)| + OPEN + |PduHead(r)| + OPEN + |r.list|
  }

  method PutIntegers(w: Writer, r: Reply)
    requires w.Valid() && ReplyOk(r)
    modifies w, w.buf
    ensures w.Valid()
    ensures Effect(w.cap, old(w.Contents()), old(w.ok), w.Contents(), w.ok, |PduHead(r)|, PduHead(r))
  {
    ghost var a, oka := w.Contents(), w.ok;
    w.Number(2, Word64(r.id));
    ghost var b, okb := w.Contents(), w.ok;
    w.Number(2, r.error);
    ghost var c, okc := w.Contents(), w.ok;
    EffectThen(w.cap, a, oka, b, okb, c, okc, |IntegerData(r.id)|, IntegerData(r.id), |IntegerData(r.error)|,
      IntegerData(r.error));
    w.Number(2, r.index);
    EffectThen(w.cap, a, oka, c, okc, w.Contents(), w.ok, |IntegerData(r.id)| + |IntegerData(r.error)|,
               IntegerData(r.id) + IntegerData(r.error), |IntegerData(r.index)|, IntegerData(r.index));
  }

  method PutPdu(w: Writer, r: Reply)
    requires w.Valid() && ReplyOk(r)
    modifies w, w.buf
    ensures w.Valid() && |PduContent(r)| < 0x1_0000
    ensures Effect(w.cap, old(w.Contents()), old(w.ok), w.Contents(), w.ok, OPEN + |PduHead(r)| + OPEN + |r.list|,
                   Print(0xa2, PduContent(r)))
  {
    ReplySizes(r);
    ghost var a, oka := w.Contents(), w.ok;
    var pdu := w.Begin(0xa2);
    ghost var b, okb := w.Contents(), w.ok;
    PutIntegers(w, r);
    ghost var c, okc := w.Contents(), w.ok;
    var vars := w.Begin(0x30);
    ghost var d, okd := w.Contents(), w.ok;
    w.Put(r.list);
    ghost var e, oke := w.Contents(), w.ok;
    w.End(vars, c, 0x30, r.list);
    ghost var f, okf := w.Contents(), w.ok;
    Bracketed(w.cap, c, okc, d, okd, e, oke, f, okf, 0x30, |r.list|, r.list);
    EffectThen(w.cap, b, okb, c, okc, f, okf, |PduHead(r)|, PduHead(r), OPEN + |r.list|, Print(0x30, r.list));
    w.End(pdu, a, 0xa2, PduContent(r));
    Bracketed(w.cap, a, oka, b, okb, f, okf, w.Contents(), w.ok, 0xa2, |PduHead(r)| + OPEN + |r.list|, PduContent(r));
  }

  method PutMessageHead(w: Writer, community: Bytes)
    requires w.Valid() && CommunityOk(community)
    modifies w, w.buf
    ensures w.Valid()
    ensures Effect(w.cap, old(w.Contents()), old(w.ok), w.Contents(), w.ok, |MessageHead(community)| + 2,
                   MessageHead(community))
  {
    IntegerDataIs(1);
    ghost var a, oka := w.Contents(), w.ok;
    w.Number(2, 1);
    ghost var b, okb := w.Contents(), w.ok;
    var com := w.Begin(4);
    ghost var c, okc := w.Contents(), w.ok;
    w.Put(community);
    ghost var d, okd := w.Contents(), w.ok;
    w.End(com, b, 4, community);
    Bracketed(w.cap, b, okb, c, okc, d, okd, w.Contents(), w.ok, 4, |community|, community);
    EffectThen(w.cap, a, oka, b, okb, w.Contents(), w.ok, |IntegerData(1)|, IntegerData(1), OPEN + |community|,
      Print(4, community));
  }

  /** response(): the message is written exactly when its peak fits. */
  method Respond(out: array<Byte>, cap: nat, community: Bytes, r: Reply) returns (n: nat)
    requires cap <= out.Length && CommunityOk(community) && ReplyOk(r)
    modifies out
    ensures n == if MessagePeak(community, r) <= cap then |Message(community, r)| else 0
    ensures n <= cap && (n > 0 ==> out[..n] == Message(community, r))
  {
    ReplySizes(r);
    IntegerDataIs(1);
    var w := new Writer(out, cap);
    ghost var a := w.Contents();
    var msg := w.Begin(0x30);
    ghost var b, okb := w.Contents(), w.ok;
    PutMessageHead(w, community);
    ghost var c, okc := w.Contents(), w.ok;
    PutPdu(w, r);
    ghost var d, okd := w.Contents(), w.ok;
    ghost var pduPeak := OPEN + |PduHead(r)| + OPEN + |r.list|;
    EffectThen(cap, b, okb, c, okc, d, okd, |MessageHead(community)| + 2, MessageHead(community), pduPeak,
      Print(0xa2, PduContent(r)));
    w.End(msg, a, 0x30, MessageContent(community, r));
    Bracketed(cap, a, true, b, okb, d, okd, w.Contents(), w.ok, 0x30, |MessageHead(community)| + pduPeak,
      MessageContent(community, r));
    n := if w.ok then w.n else 0;
  }

  /** With the error codes the agent uses, the envelope around a list takes at most 93 bytes of
      the 112 reserved, for every community and request id. */
  lemma EnvelopeFits(community: Bytes, r: Reply)
    requires CommunityOk(community) && ReplyOk(r) && r.error < 128 && r.index < 128
    ensures MessagePeak(community, r) <= 93 + |r.list| && |Message(community, r)| <= MessagePeak(community, r)
    ensures |Message(community, r)| > 0
  {
    ReplySizes(r);
    IntegerDataIs(1);
  }

  // ----- reading a response back

  datatype Parsed = Parsed(version: int, community: Bytes, operation: Byte, id: int, error: int, index: int,
                           list: Bytes)

  /** The fields of a message, by the same element and integer readers the agent uses. */
  function ParseMessage(p: Bytes): Option<Parsed> {
    match Expect(p, 0x30)
    case None => None
    case Some((msg, rest)) => if rest == [] then ParseFields(msg) else None
  }

  function ParseFields(msg: Bytes): Option<Parsed> {
    match ReadInteger(msg)
    case None => None
    case Some((version, m1)) =>
      match Expect(m1, 4)
      case None => None
      case Some((community, m2)) =>
        match ReadElement(m2)
        case None => None
        case Some(Element(operation, pdu, m3)) =>
          if m3 != [] then None
          else match ParsePdu(pdu)
            case None => None
            case Some((id, error, index, list)) => Some(Parsed(version, community, operation, id, error, index, list))
  }

  function ParsePdu(pdu: Bytes): Option<(int, int, int, Bytes)> {
    match ReadInteger(pdu)
    case None => None
    case Some((id, p1)) =>
      match ReadInteger(p1)
      case None => None
      case Some((error, p2)) =>
        match ReadInteger(p2)
        case None => None
        case Some((index, p3)) =>
          match Expect(p3, 0x30)
          case None => None
          case Some((list, rest)) => if rest == [] then Some((id, error, index, list)) else None
  }

  lemma ReadIntegerData(v: int, rest: Bytes)
    requires MIN_INT32 <= v <= MAX_INT32
    ensures ReadInteger(IntegerData(v) + rest) == Some((v, rest))
  {
    IntegerDataIs(v);
    ReadIntegerOfPrint(v, rest);
  }

  lemma ExpectPrint(tag: Byte, content: Bytes, rest: Bytes)
    requires |content| < 0x1_0000
    ensures Expect(Print(tag, content) + rest, tag) == Some((content, rest))
  {
    ReadElementOfPrint(tag, content, rest);
  }

  lemma ParsePduOfContent(r: Reply)
    requires ReplyOk(r)
    ensures ParsePdu(PduContent(r)) == Some((r.id, r.error, r.index, r.list))
  {
    var list := Print(0x30, r.list);
    var p2 := IntegerData(r.index) + list;
    var p1 := IntegerData(r.error) + p2;
    assert PduContent(r) == IntegerData(r.id) + p1;
    ReadIntegerData(r.id, p1);
    ReadIntegerData(r.error, p2);
    ReadIntegerData(r.index, list);
    assert list + [] == list;
    ExpectPrint(0x30, r.list, []);
  }

  /** Whatever response() prints is read back to exactly its fields. */
  lemma ParseMessageOfMessage(community: Bytes, r: Reply)
    requires CommunityOk(community) && ReplyOk(r)
    ensures ParseMessage(Message(community, r)) == Some(Parsed(1, community, 0xa2, r.id, r.error, r.index, r.list))
  {
    ReplySizes(r);
    IntegerDataIs(1);
    assert Message(community, r) + [] == Message(community, r);
    ExpectPrint(0x30, MessageContent(community, r), []);
    ParseFieldsOfContent(community, r);
  }

  lemma ParseFieldsOfContent(community: Bytes, r: Reply)
    requires CommunityOk(community) && ReplyOk(r)
    ensures ParseFields(MessageContent(community, r))
            == Some(Parsed(1, community, 0xa2, r.id, r.error, r.index, r.list))
  {
    ReplySizes(r);
    var pdu := Print(0xa2, PduContent(r));
    assert MessageContent(community, r) == IntegerData(1) + (Print(4, community) + pdu);
    ReadIntegerData(1, Print(4, community) + pdu);
    ExpectPrint(4, community, pdu);
    assert pdu + [] == pdu;
    ReadElementOfPrint(0xa2, PduContent(r), []);
    ParsePduOfContent(r);
  }

  // ----- what the operations answer

  const GET: Byte := 0xa0
  const GET_NEXT: Byte := 0xa1
  const SET: Byte := 0xa3
  const GET_BULK: Byte := 0xa5

  ghost predicate MibOk(m: Mib) {
    forall i :: 0 <= i < |m| ==> ObjectOk(m[i])
  }

  /** The answer for one name: its own object, or the next one; else the name with an exception. */
  function AnswerFor(m: Mib, o: Oid, next: bool): Answer {
    match Find(m, o, next)
    case Some(i) => Answer(m[i].oid, Some(m[i]), 0)
    case None => Answer(o, None, if next then END_OF_MIB_VIEW else Exception(m, o))
  }

  /** The name a repeater has reached after r steps of GETNEXT; it stays put at endOfMibView. */
  function Reached(m: Mib, o: Oid, r: nat): Oid {
    if r == 0 then o else AnswerFor(m, Reached(m, o, r - 1), true).name
  }

  function Answers(m: Mib, names: seq<Oid>, next: bool): (s: seq<Answer>)
    ensures |s| == |names| && forall i :: 0 <= i < |s| ==> s[i] == AnswerFor(m, names[i], next)
  {
    seq(|names|, i requires 0 <= i < |names| => AnswerFor(m, names[i], next))
  }

  function ReachedAll(m: Mib, names: seq<Oid>, r: nat): (s: seq<Oid>)
    ensures |s| == |names| && forall i :: 0 <= i < |s| ==> s[i] == Reached(m, names[i], r)
  {
    seq(|names|, i requires 0 <= i < |names| => Reached(m, names[i], r))
  }

  /** The bindings of section 4.2.3 of RFC 3416 up to r repetitions: each of the first n names
      once, then row after row of the others, every row one GETNEXT further. */
  function Iterated(m: Mib, oids: seq<Oid>, next: bool, n: nat, r: nat): seq<Answer>
    requires n <= |oids|
    decreases r
  {
    if r == 0 then Answers(m, oids[..n], next)
    else Iterated(m, oids, next, n, r - 1) + Answers(m, ReachedAll(m, oids[n..], r - 1), next)
  }

  function Flatten(parts: seq<Bytes>): Bytes {
    if parts == [] then [] else Flatten(parts[..|parts|-1]) + parts[|parts|-1]
  }

  predicate IsBinding(p: Bytes, a: Answer) {
    AnswerOk(a) && p == BindingData(a)
  }

  /** The parts are the encodings of the answers, one by one. */
  ghost predicate Encodes(parts: seq<Bytes>, list: seq<Answer>) {
    && |parts| == |list|
    && forall j {:trigger IsBinding(parts[j], list[j])} :: 0 <= j < |list| ==> IsBinding(parts[j], list[j])
  }

  lemma EncodesStep(parts: seq<Bytes>, list: seq<Answer>, p: Bytes, a: Answer)
    requires Encodes(parts, list) && IsBinding(p, a)
    ensures Encodes(parts + [p], list + [a]) && Flatten(parts + [p]) == Flatten(parts) + p
  {
    assert (parts + [p])[..|parts|] == parts;
    forall j | 0 <= j < |list| + 1 ensures IsBinding((parts + [p])[j], (list + [a])[j]) {
      if j < |list| { assert IsBinding(parts[j], list[j]); }
    }
  }

  lemma AnswerForOk(m: Mib, o: Oid, next: bool)
    requires MibOk(m) && Legal(o)
    ensures AnswerOk(AnswerFor(m, o, next))
  {}

  lemma {:induction false} ReachedLegal(m: Mib, o: Oid, r: nat)
    requires MibOk(m) && Legal(o)
    ensures Legal(Reached(m, o, r))
  {
    if r > 0 {
      ReachedLegal(m, o, r - 1);
      AnswerForOk(m, Reached(m, o, r - 1), true);
    }
  }

  /** Once a repeater is at endOfMibView it stays there, so rows after such a row repeat it. */
  lemma {:induction false} EndStays(m: Mib, o: Oid, r: nat, s: nat)
    requires Find(m, Reached(m, o, r), true).None?
    ensures Reached(m, o, r + s) == Reached(m, o, r)
  {
    if s > 0 { EndStays(m, o, r, s - 1); }
  }

  // ----- writing a row of answers

  ghost predicate AllLegal(names: seq<Oid>) {
    forall i :: 0 <= i < |names| ==> Legal(names[i])
  }

  /** Why a list stopped: the binding limit, or the next binding does not fit. */
  predicate Exhausted(count: nat, used: nat, a: Answer, cap: nat) {
    count == RESPONSE_MAX || (AnswerOk(a) && used + BindingPeak(a) > cap)
  }

  method ComputeAnswer(m: Mib, o: Oid, next: bool) returns (a: Answer)
    requires MibOk(m) && Legal(o)
    ensures a == AnswerFor(m, o, next) && AnswerOk(a)
  {
    AnswerForOk(m, o, next);
    var found := Lookup(m, o, next);
    if found.Some? {
      a := Answer(m[found.value].oid, Some(m[found.value]), 0);
    } else {
      var exception := END_OF_MIB_VIEW;
      if !next { exception := Missing(m, o); }
      a := Answer(o, None, exception);
    }
  }

  /** The writer holds exactly these parts. */
  ghost predicate Holds(w: Writer, parts: seq<Bytes>)
    reads w, w.buf
  {
    w.Valid() && w.Contents() == Flatten(parts)
  }

  /** The answer for one name, appended if there is room; if not, the position is put back. */
  method Entry(w: Writer, m: Mib, o: Oid, next: bool, emitted: nat, ghost parts: seq<Bytes>)
    returns (a: Answer, full: bool, ghost p: Bytes)
    requires MibOk(m) && Legal(o) && Holds(w, parts) && w.ok && emitted <= RESPONSE_MAX
    modifies w, w.buf
    ensures a == AnswerFor(m, o, next) && IsBinding(p, a)
    ensures full ==> Exhausted(emitted, |Flatten(parts)|, a, w.cap) && Holds(w, parts)
    ensures !full ==> emitted < RESPONSE_MAX && w.ok && w.Valid() && w.Contents() == Flatten(parts) + p
  {
    a := ComputeAnswer(m, o, next);
    p := BindingData(a);
    var before := w.n;
    ghost var contents := w.Contents();
    PutBinding(w, a);
    full := !w.ok || emitted == RESPONSE_MAX;
    if full {
      ghost var after := w.Contents();
      w.n := before;
      assert w.Contents() == after[..before] == contents;
    }
  }

  /** The list after the answers for names[start..i]. */
  function RowList(m: Mib, names: seq<Oid>, start: nat, i: nat, next: bool, list: seq<Answer>): seq<Answer>
    requires start <= i <= |names|
  {
    if i == start then list else RowList(m, names, start, i - 1, next, list) + [AnswerFor(m, names[i-1], next)]
  }

  /** The names after those of the part have moved to the ones answered. */
  function MovedNames(m: Mib, names: seq<Oid>, start: nat, i: nat, next: bool): (s: seq<Oid>)
    requires start <= i <= |names|
    ensures |s| == |names|
  {
    if i == start then names
    else MovedNames(m, names, start, i - 1, next)[i-1 := AnswerFor(m, names[i-1], next).name]
  }

  /** Every name of the part is past the last object. */
  predicate AtEnd(m: Mib, names: seq<Oid>, start: nat, i: nat, next: bool)
    requires start <= i <= |names|
  {
    i == start || (AtEnd(m, names, start, i - 1, next) && AnswerFor(m, names[i-1], next).value.None?)
  }

  lemma {:induction false} RowListIs(m: Mib, names: seq<Oid>, start: nat, i: nat, next: bool, list: seq<Answer>)
    requires start <= i <= |names|
    ensures RowList(m, names, start, i, next, list) == list + Answers(m, names[start..i], next)
    decreases i
  {
    if i > start {
      RowListIs(m, names, start, i - 1, next, list);
      assert names[start..i] == names[start..i-1] + [names[i-1]];
      assert Answers(m, names[start..i], next)
             == Answers(m, names[start..i-1], next) + [AnswerFor(m, names[i-1], next)];
    }
  }

  lemma {:induction false} MovedNamesAre(m: Mib, names: seq<Oid>, start: nat, i: nat, next: bool)
    requires start <= i <= |names|
    ensures forall j :: 0 <= j < |names| ==>
      MovedNames(m, names, start, i, next)[j] == if start <= j < i then AnswerFor(m, names[j], next).name else names[j]
    decreases i
  {
    if i > start { MovedNamesAre(m, names, start, i - 1, next); }
  }

  lemma {:induction false} NotYetMoved(m: Mib, names: seq<Oid>, start: nat, i: nat, j: nat, next: bool)
    requires start <= i <= j < |names|
    ensures MovedNames(m, names, start, i, next)[j] == names[j]
    decreases i
  {
    if i > start { NotYetMoved(m, names, start, i - 1, j, next); }
  }

  lemma {:induction false} AtEndIff(m: Mib, names: seq<Oid>, start: nat, i: nat, next: bool)
    requires start <= i <= |names|
    ensures AtEnd(m, names, start, i, next) <==> forall j :: start <= j < i ==> AnswerFor(m, names[j], next).value.None?
    decreases i
  {
    if i > start { AtEndIff(m, names, start, i - 1, next); }
  }

  /** An entry appended to the list of bindings so far, or a limit that leaves the list as it is. */
  method NextEntry(w: Writer, m: Mib, o: Oid, next: bool, emitted: nat, ghost list: seq<Answer>,
                   ghost parts: seq<Bytes>)
    returns (a: Answer, full: bool, ghost all: seq<Bytes>)
    requires MibOk(m) && Legal(o) && Encodes(parts, list) && Holds(w, parts) && w.ok
             && emitted == |list| <= RESPONSE_MAX
    modifies w, w.buf
    ensures a == AnswerFor(m, o, next) && Holds(w, all) && Encodes(all, if full then list else list + [a])
    ensures full ==> all == parts && Exhausted(emitted, |Flatten(parts)|, a, w.cap)
    ensures !full ==> emitted < RESPONSE_MAX && w.ok
  {
    ghost var p;
    a, full, p := Entry(w, m, o, next, emitted, parts);
    all := parts;
    if !full {
      EncodesStep(parts, list, p, a);
      all := parts + [p];
    }
  }

  /** What one more name adds to a row. */
  lemma RowUnfolds(m: Mib, names: seq<Oid>, start: nat, i: nat, next: bool, list: seq<Answer>)
    requires start <= i < |names|
    ensures var a := AnswerFor(m, names[i], next);
      && MovedNames(m, names, start, i, next)[i] == names[i]
      && RowList(m, names, start, i + 1, next, list) == RowList(m, names, start, i, next, list) + [a]
      && MovedNames(m, names, start, i + 1, next) == MovedNames(m, names, start, i, next)[i := a.name]
      && AtEnd(m, names, start, i + 1, next) == (AtEnd(m, names, start, i, next) && a.value.None?)
  {
    NotYetMoved(m, names, start, i, i, next);
  }

  /** One pass of the inner loop over names[start..stop]: writes their answers until, at index
      at, one does not fit, and moves each name to the one answered. */
  method Row(w: Writer, m: Mib, names: seq<Oid>, start: nat, stop: nat, next: bool, emitted: nat,
             ghost list: seq<Answer>, ghost parts: seq<Bytes>)
    returns (moved: seq<Oid>, allEnd: bool, full: bool, count: nat, ghost at: nat, ghost all: seq<Bytes>)
    requires MibOk(m) && AllLegal(names) && start <= stop <= |names|
    requires Encodes(parts, list) && Holds(w, parts) && w.ok && emitted == |list| <= RESPONSE_MAX
    modifies w, w.buf
    ensures start <= at <= stop && (full <==> at < stop)
    ensures Encodes(all, RowList(m, names, start, at, next, list)) && Holds(w, all) && count == |all| <= RESPONSE_MAX
    ensures full ==> Exhausted(count, |Flatten(all)|, AnswerFor(m, names[at], next), w.cap)
    ensures !full ==>
              && w.ok && moved == MovedNames(m, names, start, stop, next)
              && allEnd == AtEnd(m, names, start, stop, next)
  {
    moved, allEnd, full, count, at, all := names, true, false, emitted, start, parts;
    ghost var after := list;
    for i := start to stop
      invariant at == i && !full && w.ok
      invariant after == RowList(m, names, start, i, next, list) && Encodes(all, after)
      invariant Holds(w, all) && count == |all| <= RESPONSE_MAX
      invariant moved == MovedNames(m, names, start, i, next)
      invariant allEnd == AtEnd(m, names, start, i, next)
    {
      RowUnfolds(m, names, start, i, next, list);
      var answer;
      answer, full, all := NextEntry(w, m, moved[i], next, count, after, all);
      if full { return; }
      moved := moved[i := answer.name];
      if answer.value.Some? { allEnd := false; }
      after, count, at := after + [answer], count + 1, i + 1;
    }
  }

  // ----- whole replies

  /** Every repeater was at endOfMibView in row r. */
  ghost predicate RowAtEnd(m: Mib, oids: seq<Oid>, n: nat, r: nat) {
    r > 0 && forall i :: n <= i < |oids| ==> Find(m, Reached(m, oids[i], r - 1), true).None?
  }

  /** What the loops leave: a prefix of the iterated answers that stopped for one of three reasons. */
  ghost predicate Outcome(m: Mib, oids: seq<Oid>, next: bool, n: nat, reps: nat, list: seq<Answer>, used: nat,
                          cap: nat, full: bool) {
    && n <= |oids| && list <= Iterated(m, oids, next, n, reps) && |list| <= RESPONSE_MAX
    && (full ==>
          && |list| < |Iterated(m, oids, next, n, reps)|
          && Exhausted(|list|, used, Iterated(m, oids, next, n, reps)[|list|], cap))
    && (!full ==> list == Iterated(m, oids, next, n, reps)
                  || exists r :: 1 <= r <= reps && list == Iterated(m, oids, next, n, r) && RowAtEnd(m, oids, n, r))
  }

  lemma {:induction false} IteratedGrows(m: Mib, oids: seq<Oid>, next: bool, n: nat, r: nat, s: nat)
    requires n <= |oids| && r <= s
    ensures Iterated(m, oids, next, n, r) <= Iterated(m, oids, next, n, s)
    decreases s
  {
    if r < s { IteratedGrows(m, oids, next, n, r, s - 1); }
  }

  /** A row cut short is still a prefix, and what blocked it is the next answer. */
  lemma RowIsPrefix(m: Mib, oids: seq<Oid>, next: bool, n: nat, r: nat, reps: nat, row: seq<Oid>, k: nat)
    requires n <= |oids| && 0 < r <= reps && row == ReachedAll(m, oids[n..], r - 1) && k <= |row|
    ensures var list := Iterated(m, oids, next, n, r - 1) + Answers(m, row[..k], next);
      && list <= Iterated(m, oids, next, n, reps)
      && (k < |row| ==>
            && |list| < |Iterated(m, oids, next, n, reps)|
            && Iterated(m, oids, next, n, reps)[|list|] == AnswerFor(m, row[k], next))
  {
    IteratedGrows(m, oids, next, n, r, reps);
    var before, whole := Iterated(m, oids, next, n, r - 1), Iterated(m, oids, next, n, r);
    assert whole == before + Answers(m, row, next);
    assert before + Answers(m, row[..k], next) == whole[..|before| + k];
  }

  /** The names before row r: the repeaters have each moved r-1 steps. */
  ghost predicate NamesBefore(m: Mib, oids: seq<Oid>, n: nat, r: nat, names: seq<Oid>) {
    && n <= |names| == |oids| && r > 0
    && forall i :: n <= i < |names| ==> names[i] == Reached(m, oids[i], r - 1)
  }

  lemma NamesAfterRow(m: Mib, oids: seq<Oid>, n: nat, r: nat, names: seq<Oid>)
    requires NamesBefore(m, oids, n, r, names)
    ensures NamesBefore(m, oids, n, r + 1, MovedNames(m, names, n, |names|, true))
    ensures AtEnd(m, names, n, |names|, true) ==> RowAtEnd(m, oids, n, r)
  {
    MovedNamesAre(m, names, n, |names|, true);
    AtEndIff(m, names, n, |names|, true);
  }

  lemma {:induction false} MovedLegal(m: Mib, names: seq<Oid>, start: nat, i: nat, next: bool)
    requires MibOk(m) && AllLegal(names) && start <= i <= |names|
    ensures AllLegal(MovedNames(m, names, start, i, next))
    decreases i
  {
    if i > start {
      MovedLegal(m, names, start, i - 1, next);
      AnswerForOk(m, names[i-1], next);
    }
  }

  /** The list after names[n..at] of a row is the iterated one with the front of that row. */
  lemma RowInIterated(m: Mib, oids: seq<Oid>, n: nat, round: nat, reps: nat, names: seq<Oid>, at: nat)
    requires NamesBefore(m, oids, n, round, names) && round <= reps && n <= at <= |names|
    ensures var list := RowList(m, names, n, at, true, Iterated(m, oids, true, n, round - 1));
      && list <= Iterated(m, oids, true, n, reps)
      && (at < |names| ==> |list| < |Iterated(m, oids, true, n, reps)|
                           && Iterated(m, oids, true, n, reps)[|list|] == AnswerFor(m, names[at], true))
      && (at == |names| ==> list == Iterated(m, oids, true, n, round))
  {
    var row := RowNames(m, oids, n, round, names, at, Iterated(m, oids, true, n, round - 1));
    RowIsPrefix(m, oids, true, n, round, reps, row, at - n);
    if at == |names| { assert row[..|row|] == row; }
  }

  lemma RowNames(m: Mib, oids: seq<Oid>, n: nat, round: nat, names: seq<Oid>, at: nat, list: seq<Answer>)
    returns (row: seq<Oid>)
    requires NamesBefore(m, oids, n, round, names) && n <= at <= |names|
    ensures row == ReachedAll(m, oids[n..], round - 1) && |row| == |names| - n
    ensures RowList(m, names, n, at, true, list) == list + Answers(m, row[..at-n], true)
    ensures at < |names| ==> row[at-n] == names[at]
  {
    row := ReachedAll(m, oids[n..], round - 1);
    assert row == names[n..];
    RowListIs(m, names, n, at, true, list);
    assert names[n..at] == row[..at-n];
  }

  /** What a row of GETBULK cut at name index at, or completed, means for the whole reply. */
  lemma RowOutcome(m: Mib, oids: seq<Oid>, n: nat, round: nat, reps: nat, names: seq<Oid>, at: nat, used: nat, cap: nat)
    requires NamesBefore(m, oids, n, round, names) && round <= reps && n <= at <= |names|
    requires var list := RowList(m, names, n, at, true, Iterated(m, oids, true, n, round - 1));
      |list| <= RESPONSE_MAX && (at < |names| ==> Exhausted(|list|, used, AnswerFor(m, names[at], true), cap))
    ensures var list := RowList(m, names, n, at, true, Iterated(m, oids, true, n, round - 1));
      && (at < |names| ==> Outcome(m, oids, true, n, reps, list, used, cap, true))
      && (at == |names| ==> list == Iterated(m, oids, true, n, round))
      && (at == |names| && AtEnd(m, names, n, |names|, true) ==>
            Outcome(m, oids, true, n, reps, list, used, cap, false))
  {
    RowInIterated(m, oids, n, round, reps, names, at);
    if at == |names| { NamesAfterRow(m, oids, n, round, names); }
  }

  /** Rows 1 to repeats of GETBULK. */
  method Rows(w: Writer, m: Mib, oids: seq<Oid>, first: seq<Oid>, n: nat, repeats: nat, emitted: nat,
              ghost parts0: seq<Bytes>)
    returns (full: bool, ghost list: seq<Answer>, ghost parts: seq<Bytes>)
    requires MibOk(m) && AllLegal(first) && NamesBefore(m, oids, n, 1, first)
    requires Encodes(parts0, Iterated(m, oids, true, n, 0)) && Holds(w, parts0) && w.ok
             && emitted == |parts0| <= RESPONSE_MAX
    modifies w, w.buf
    ensures Encodes(parts, list) && Holds(w, parts)
            && Outcome(m, oids, true, n, repeats, list, |Flatten(parts)|, w.cap, full)
  {
    var names, count := first, emitted;
    full, list, parts := false, Iterated(m, oids, true, n, 0), parts0;
    for round := 1 to repeats + 1
      invariant !full && w.ok && AllLegal(names) && NamesBefore(m, oids, n, round, names)
      invariant list == Iterated(m, oids, true, n, round - 1) && Encodes(parts, list)
      invariant Holds(w, parts) && count == |parts| <= RESPONSE_MAX
    {
      var moved, allEnd;
      ghost var at;
      moved, allEnd, full, count, at, parts := Row(w, m, names, n, |names|, true, count, list, parts);
      RowOutcome(m, oids, n, round, repeats, names, at, |Flatten(parts)|, w.cap);
      list := RowList(m, names, n, at, true, list);
      if full || allEnd { return; }
      NamesAfterRow(m, oids, n, round, names);
      MovedLegal(m, names, n, |names|, true);
      names := moved;
    }
  }
}
