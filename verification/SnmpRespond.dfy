/**
 snmp_respond(): parse a request datagram, collect the answers and print one response.
*/
module SnmpRespond {
  import opened Common
  import opened Ber
  import opened SnmpWriter
  import opened SnmpMib
  import opened SnmpAgent

  // ----- parsing

  datatype Request = Request(operation: Byte, id: int, first: int, second: int, list: Bytes, oids: seq<Oid>)

  /** The names of a variable binding list; the values are skipped, whatever they are. */
  function ParseBindings(list: Bytes, oids: seq<Oid>): Option<seq<Oid>>
    decreases |list|
  {
    if list == [] then Some(oids)
    else if |oids| == REQUEST_MAX then None
    else match ParseBinding(list)
      case None => None
      case Some((o, rest)) => ParseBindings(rest, oids + [o])
  }

  function ParseBinding(list: Bytes): (r: Option<(Oid, Bytes)>)
    ensures r.Some? ==> |r.value.1| < |list|
  {
    match Expect(list, 0x30)
    case None => None
    case Some((binding, rest)) =>
      match Expect(binding, 6)
      case None => None
      case Some((name, value)) =>
        match ReadOid(name)
        case None => None
        case Some(o) =>
          match ReadElement(value)
          case None => None
          case Some(e) => if e.rest == [] then Some((o, rest)) else None
  }

  function ParseRequest(input: Bytes, community: Bytes): Option<Request> {
    if |input| > PACKET_MAX then None
    else match ParseMessage(input)
      case None => None
      case Some(p) =>
        if p.version != 1 || p.community != community || p.operation !in {GET, GET_NEXT, SET, GET_BULK} then None
        else match ParseBindings(p.list, [])
          case None => None
          case Some(oids) => Some(Request(p.operation, p.id, p.error, p.index, p.list, oids))
  }

  predicate Int32(v: int) { -0x8000_0000 <= v <= 0x7fff_ffff }

  lemma ParsePduRanges(pdu: Bytes)
    requires ParsePdu(pdu).Some?
    ensures var (a, b, c, list) := ParsePdu(pdu).value; Int32(a) && Int32(b) && Int32(c) && |list| <= |pdu|
  {
    ReadIntegerRange(pdu);
    var (id, p1) := ReadInteger(pdu).value;
    ReadIntegerRange(p1);
    var (first, p2) := ReadInteger(p1).value;
    ReadIntegerRange(p2);
  }

  lemma ReadIntegerRange(r: Bytes)
    requires ReadInteger(r).Some?
    ensures Int32(ReadInteger(r).value.0) && |ReadInteger(r).value.1| <= |r|
  {
    Int32Iff(Expect(r, 2).value.0);
  }

  lemma {:induction false} ParsedNames(list: Bytes, oids: seq<Oid>)
    requires ParseBindings(list, oids).Some? && AllLegal(oids) && |oids| <= REQUEST_MAX
    ensures var r := ParseBindings(list, oids).value; AllLegal(r) && |r| <= REQUEST_MAX
    decreases |list|
  {
    if list != [] {
      var (o, rest) := ParseBinding(list).value;
      var (binding, _) := Expect(list, 0x30).value;
      ContentOfReadOid(Expect(binding, 6).value.0);
      ParsedNames(rest, oids + [o]);
    }
  }

  /** Only a message of version 1 with the right community and one of four operations is accepted, and it is in
      range: 32-bit integers, at most 32 legal names, at most 1400 octets. */
  lemma ParsedRequest(input: Bytes, community: Bytes)
    requires ParseRequest(input, community).Some?
    ensures var q := ParseRequest(input, community).value;
      && Int32(q.id) && Int32(q.first) && Int32(q.second) && |q.list| <= |input| <= 1400
      && AllLegal(q.oids) && |q.oids| <= 32 && q.operation in {0xa0, 0xa1, 0xa3, 0xa5}
      && ParseMessage(input) == Some(Parsed(1, community, q.operation, q.id, q.first, q.second, q.list))
  {
    var (msg, _) := Expect(input, 0x30).value;
    var (_, m1) := ReadInteger(msg).value;
    var (_, m2) := Expect(m1, 4).value;
    ParsePduRanges(ReadElement(m2).value.content);
    ParsedNames(ParseMessage(input).value.list, []);
  }

  /** The loop over the request's bindings. */
  method ReadBindings(whole: Bytes) returns (r: Option<seq<Oid>>)
    ensures r == ParseBindings(whole, [])
  {
    var list, oids := whole, [];
    while list != []
      invariant ParseBindings(list, oids) == ParseBindings(whole, [])
      decreases |list|
    {
      if |oids| == REQUEST_MAX { return None; }
      var binding := Expect(list, 0x30);
      if binding.None? { return None; }
      var name := Expect(binding.value.0, 6);
      if name.None? { return None; }
      var oid := OidRead(name.value.0);
      if oid.None? { return None; }
      var value := ReadElement(name.value.1);
      if value.None? || value.value.rest != [] { return None; }
      list, oids := binding.value.1, oids + [oid.value];
    }
    r := Some(oids);
  }

  // ----- the reply

  function NonRepeaters(q: Request): nat {
    if q.operation != GET_BULK then |q.oids|
    else if q.first < 0 then 0 else if q.first > |q.oids| then |q.oids| else q.first
  }

  function Repetitions(q: Request): nat {
    if q.operation != GET_BULK || q.second < 0 then 0 else q.second
  }

  function Limit(cap: nat): nat
    requires cap >= 128
  {
    (if cap > PACKET_MAX then PACKET_MAX else cap) - RESERVED
  }

  function TooBig(q: Request): Reply {
    Reply(q.id, 1, 0, [])
  }

  function Echo(q: Request): Reply {
    Reply(q.id, if q.oids == [] then 0 else 17, if q.oids == [] then 0 else 1, q.list)
  }

  /** The reply a request must get. SET is refused with its own bindings echoed. The others carry
      a prefix of the iterated answers; only GETBULK may be cut short, the rest become tooBig. */
  ghost predicate IsReply(q: Request, community: Bytes, m: Mib, cap: nat, r: Reply)
    requires CommunityOk(community) && cap >= 128
  {
    if q.operation == SET then
      r == if ReplyOk(Echo(q)) && MessagePeak(community, Echo(q)) <= cap then Echo(q) else TooBig(q)
    else
      exists list: seq<Answer>, parts: seq<Bytes>, full: bool ::
        Answered(q, m, Limit(cap), list, parts, full) && r == Carries(q, parts, full)
  }

  ghost predicate Answered(q: Request, m: Mib, limit: nat, list: seq<Answer>, parts: seq<Bytes>, full: bool) {
    && Encodes(parts, list) && |Flatten(parts)| <= limit
    && Outcome(m, q.oids, q.operation != GET, NonRepeaters(q), Repetitions(q), list, |Flatten(parts)|, limit, full)
  }

  function Carries(q: Request, parts: seq<Bytes>, full: bool): Reply {
    if full && q.operation != GET_BULK then TooBig(q) else Reply(q.id, 0, 0, Flatten(parts))
  }

  // ----- the repetition clamp

  lemma {:induction false} IteratedLength(m: Mib, oids: seq<Oid>, n: nat, r: nat)
    requires n < |oids|
    ensures |Iterated(m, oids, true, n, r)| >= r
  {
    if r > 0 { IteratedLength(m, oids, n, r - 1); }
  }

  lemma {:induction false} NoRepeaters(m: Mib, oids: seq<Oid>, r: nat)
    ensures Iterated(m, oids, true, |oids|, r) == Iterated(m, oids, true, |oids|, 0)
  {
    if r > 0 {
      NoRepeaters(m, oids, r - 1);
      assert oids[|oids|..] == [];
    }
  }

  /** Stopping at 64 rows instead of the number asked for changes nothing: by then 64 bindings
      have been written or there is nothing to repeat. */
  lemma ClampedRows(m: Mib, oids: seq<Oid>, n: nat, reps: nat, list: seq<Answer>, used: nat, cap: nat, full: bool)
    returns (full': bool)
    requires reps >= RESPONSE_MAX && Outcome(m, oids, true, n, RESPONSE_MAX, list, used, cap, full)
    ensures Outcome(m, oids, true, n, reps, list, used, cap, full')
  {
    full' := full;
    IteratedGrows(m, oids, true, n, RESPONSE_MAX, reps);
    if !full && list == Iterated(m, oids, true, n, RESPONSE_MAX) && list != Iterated(m, oids, true, n, reps) {
      if n == |oids| {
        NoRepeaters(m, oids, RESPONSE_MAX);
        NoRepeaters(m, oids, reps);
      } else {
        IteratedLength(m, oids, n, RESPONSE_MAX);
        full' := true;
      }
    }
  }

  // ----- the agent

  /** Collect the answers of a GET, GETNEXT or GETBULK request into a fresh body. */
  method Collect(q: Request, m: Mib, limit: nat)
    returns (body: Bytes, full: bool, ghost cut: bool, ghost list: seq<Answer>, ghost parts: seq<Bytes>)
    requires MibOk(m) && AllLegal(q.oids) && |q.oids| <= REQUEST_MAX && limit <= PACKET_MAX
    ensures Answered(q, m, limit, list, parts, cut) && (q.operation != GET_BULK ==> cut == full)
    ensures body == Flatten(parts)
  {
    var buffer := new Byte[PACKET_MAX](_ => 0);
    var w := new Writer(buffer, limit);
    var next, n := q.operation != GET, NonRepeaters(q);
    var moved, allEnd, count;
    ghost var at;
    assert w.Contents() == Flatten([]);
    moved, allEnd, full, count, at, parts := Row(w, m, q.oids, 0, n, next, 0, [], []);
    list := RowList(m, q.oids, 0, at, next, []);
    FirstRow(m, q.oids, next, n, at, Repetitions(q), |Flatten(parts)|, limit);
    cut := full;
    if !full && q.operation == GET_BULK {
      FirstNames(m, q.oids, n);
      cut, list, parts := Repeat(w, m, q.oids, moved, n, Repetitions(q), count, parts);
    }
    body := buffer[..w.n];
  }

  lemma FirstNames(m: Mib, oids: seq<Oid>, n: nat)
    requires MibOk(m) && AllLegal(oids) && n <= |oids|
    ensures AllLegal(MovedNames(m, oids, 0, n, true)) && NamesBefore(m, oids, n, 1, MovedNames(m, oids, 0, n, true))
  {
    MovedNamesAre(m, oids, 0, n, true);
    MovedLegal(m, oids, 0, n, true);
  }

  /** The rows of GETBULK, never more than 64 of them. */
  method Repeat(w: Writer, m: Mib, oids: seq<Oid>, first: seq<Oid>, n: nat, reps: nat, emitted: nat,
                ghost parts0: seq<Bytes>)
    returns (ghost cut: bool, ghost list: seq<Answer>, ghost parts: seq<Bytes>)
    requires MibOk(m) && AllLegal(first) && NamesBefore(m, oids, n, 1, first)
    requires Encodes(parts0, Iterated(m, oids, true, n, 0)) && Holds(w, parts0) && w.ok
             && emitted == |parts0| <= RESPONSE_MAX
    modifies w, w.buf
    ensures Encodes(parts, list) && Holds(w, parts)
    ensures Outcome(m, oids, true, n, reps, list, |Flatten(parts)|, w.cap, cut)
  {
    var repeats := if reps > RESPONSE_MAX then RESPONSE_MAX else reps;
    var full;
    full, list, parts := Rows(w, m, oids, first, n, repeats, emitted, parts0);
    cut := full;
    if reps > RESPONSE_MAX {
      cut := ClampedRows(m, oids, n, reps, list, |Flatten(parts)|, w.cap, full);
    }
  }

  lemma FirstRow(m: Mib, oids: seq<Oid>, next: bool, n: nat, at: nat, reps: nat, used: nat, cap: nat)
    requires at <= n <= |oids|
    requires var list := RowList(m, oids, 0, at, next, []);
      |list| <= RESPONSE_MAX && (at < n ==> Exhausted(|list|, used, AnswerFor(m, oids[at], next), cap))
    ensures var list := RowList(m, oids, 0, at, next, []);
      && (at < n ==> Outcome(m, oids, next, n, reps, list, used, cap, true))
      && (at == n ==> list == Iterated(m, oids, next, n, 0))
  {
    FirstRowIsPrefix(m, oids, next, n, at);
    IteratedGrows(m, oids, next, n, 0, reps);
  }

  lemma FirstRowIsPrefix(m: Mib, oids: seq<Oid>, next: bool, n: nat, at: nat)
    requires at <= n <= |oids|
    ensures var list, whole := RowList(m, oids, 0, at, next, []), Iterated(m, oids, next, n, 0);
      |list| == at <= |whole| == n && list == whole[..at] && (at < n ==> whole[at] == AnswerFor(m, oids[at], next))
  {
    RowListIs(m, oids, 0, at, next, []);
    assert oids[0..at] == oids[..n][..at];
  }

  /** Every datagram that parses gets a reply, non-empty, within cap and as IsReply says; every
      other is discarded. */
  method SnmpRespond(input: Bytes, out: array<Byte>, cap: nat, community: Bytes, m: Mib)
    returns (n: nat, ghost reply: Reply)
    requires cap <= out.Length && MibOk(m)
    modifies out
    ensures n > 0 <==> cap >= 128 && CommunityOk(community) && ParseRequest(input, community).Some?
    ensures n <= cap
    ensures n > 0 ==>
      && ReplyOk(reply) && out[..n] == Message(community, reply)
      && IsReply(ParseRequest(input, community).value, community, m, cap, reply)
  {
    n, reply := 0, Reply(0, 0, 0, []);
    if |input| > PACKET_MAX || cap < 128 || !CommunityOk(community) { return; }
    var p := ParseMessage(input);
    if p.None? || p.value.version != 1 || p.value.community != community
       || p.value.operation !in {GET, GET_NEXT, SET, GET_BULK} { return; }
    var oids := ReadBindings(p.value.list);
    if oids.None? { return; }
    ParsedRequest(input, community);
    var q := Request(p.value.operation, p.value.id, p.value.error, p.value.index, p.value.list, oids.value);
    if q.operation == SET { n, reply := Refuse(q, out, cap, community, m); }
    else { n, reply := Serve(q, out, cap, community, m); }
  }

  /** SET: echo the bindings as notWritable, or report tooBig when they do not fit. */
  method Refuse(q: Request, out: array<Byte>, cap: nat, community: Bytes, ghost m: Mib)
    returns (n: nat, ghost reply: Reply)
    requires 128 <= cap <= out.Length && CommunityOk(community) && q.operation == SET
    requires Int32(q.id) && |q.list| <= PACKET_MAX
    modifies out
    ensures 0 < n <= cap && ReplyOk(reply) && out[..n] == Message(community, reply)
            && IsReply(q, community, m, cap, reply)
  {
    EnvelopeFits(community, TooBig(q));
    EnvelopeFits(community, Echo(q));
    reply := Echo(q);
    n := Respond(out, cap, community, Echo(q));
    if n == 0 {
      reply := TooBig(q);
      n := Respond(out, cap, community, TooBig(q));
    }
  }

  method Serve(q: Request, out: array<Byte>, cap: nat, community: Bytes, m: Mib) returns (n: nat, ghost reply: Reply)
    requires 128 <= cap <= out.Length && CommunityOk(community) && q.operation != SET
    requires MibOk(m) && Int32(q.id) && AllLegal(q.oids) && |q.oids| <= REQUEST_MAX
    modifies out
    ensures 0 < n <= cap && ReplyOk(reply) && out[..n] == Message(community, reply)
            && IsReply(q, community, m, cap, reply)
  {
    var body, full;
    ghost var cut, list, parts;
    body, full, cut, list, parts := Collect(q, m, Limit(cap));
    if full && q.operation != GET_BULK {
      EnvelopeFits(community, TooBig(q));
      reply := TooBig(q);
      n := Respond(out, cap, community, TooBig(q));
    } else {
      reply := Reply(q.id, 0, 0, body);
      EnvelopeFits(community, Reply(q.id, 0, 0, body));
      n := Respond(out, cap, community, Reply(q.id, 0, 0, body));
    }
  }
}
