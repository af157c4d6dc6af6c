/**
 A whole exchange: the octets of any request a manager can print, and what it reads in the octets that
 come back. Requests and replies are stated with the numbers of RFC 3416 and of the engine's limits.
*/
module SnmpExchange {
  import opened Common
  import opened Ber
  import opened SnmpWriter
  import opened SnmpMib
  import opened SnmpAgent
  import opened SnmpRespond
  import opened SnmpReply

  // ----- requests

  /** One binding of a request: a name with a value of any kind. */
  datatype Ask = Ask(name: Oid, tag: Byte, content: Bytes)

  predicate AskOk(a: Ask) { Legal(a.name) && |a.content| <= 1400 }

  function AskData(a: Ask): Bytes
    requires AskOk(a)
  {
    OidSize(a.name);
    Print(0x30, Print(6, OidContent(a.name)) + Print(a.tag, a.content))
  }

  function AskList(asks: seq<Ask>): Bytes
    requires forall a :: a in asks ==> AskOk(a)
  {
    if asks == [] then [] else AskData(asks[0]) + AskList(asks[1..])
  }

  function Names(asks: seq<Ask>): (s: seq<Oid>)
    ensures |s| == |asks|
  {
    seq(|asks|, i requires 0 <= i < |asks| => asks[i].name)
  }

  /** A request message; first and second are zero, or the non-repeaters and the repetitions of GETBULK. */
  datatype Inquiry = Inquiry(community: Bytes, operation: Byte, id: int, first: int, second: int, asks: seq<Ask>)

  predicate InquiryOk(q: Inquiry) {
    && 1 <= |q.community| <= 64 && q.operation in {0xa0, 0xa1, 0xa3, 0xa5}
    && Int32(q.id) && Int32(q.first) && Int32(q.second)
    && |q.asks| <= 32 && (forall a :: a in q.asks ==> AskOk(a)) && |AskList(q.asks)| <= 1400
  }

  function AskPdu(q: Inquiry): (p: Bytes)
    requires InquiryOk(q)
    ensures |p| <= 1422
  {
    IntegerDataIs(q.id);
    IntegerDataIs(q.first);
    IntegerDataIs(q.second);
    IntegerData(q.id) + IntegerData(q.first) + IntegerData(q.second) + Print(0x30, AskList(q.asks))
  }

  function Content(q: Inquiry): (c: Bytes)
    requires InquiryOk(q)
    ensures |c| < 0x1_0000
  {
    IntegerDataIs(1);
    IntegerData(1) + Print(4, q.community) + Print(q.operation, AskPdu(q))
  }

  function Datagram(q: Inquiry): Bytes
    requires InquiryOk(q)
  {
    Print(0x30, Content(q))
  }

  lemma ParseAsk(a: Ask, rest: Bytes)
    requires AskOk(a)
    ensures ParseBinding(AskData(a) + rest) == Some((a.name, rest))
  {
    OidSize(a.name);
    var value := Print(a.tag, a.content);
    ExpectPrint(0x30, Print(6, OidContent(a.name)) + value, rest);
    ExpectPrint(6, OidContent(a.name), value);
    ReadOidOfContent(a.name);
    assert value + [] == value;
    ReadElementOfPrint(a.tag, a.content, []);
  }

  lemma ParseNext(list: Bytes, before: seq<Oid>, o: Oid, rest: Bytes)
    requires ParseBinding(list) == Some((o, rest)) && |before| < 32
    ensures ParseBindings(list, before) == ParseBindings(rest, before + [o])
  {}

  lemma ParseFirst(asks: seq<Ask>, before: seq<Oid>)
    requires asks != [] && (forall a :: a in asks ==> AskOk(a)) && |before| < 32
    ensures ParseBindings(AskList(asks), before) == ParseBindings(AskList(asks[1..]), before + [asks[0].name])
  {
    var rest := AskList(asks[1..]);
    ParseAsk(asks[0], rest);
    ParseNext(AskData(asks[0]) + rest, before, asks[0].name, rest);
  }

  lemma NamesFront(asks: seq<Ask>, before: seq<Oid>)
    requires asks != []
    ensures before + [asks[0].name] + Names(asks[1..]) == before + Names(asks)
  {}

  lemma {:induction false} ParseAsks(asks: seq<Ask>, before: seq<Oid>)
    requires (forall a :: a in asks ==> AskOk(a)) && |before| + |asks| <= 32
    ensures ParseBindings(AskList(asks), before) == Some(before + Names(asks))
    decreases |asks|
  {
    if asks == [] {
      assert before + Names(asks) == before;
    } else {
      ParseFirst(asks, before);
      ParseAsks(asks[1..], before + [asks[0].name]);
      NamesFront(asks, before);
    }
  }

  lemma ParseAskPdu(q: Inquiry)
    requires InquiryOk(q)
    ensures ParsePdu(AskPdu(q)) == Some((q.id, q.first, q.second, AskList(q.asks)))
  {
    var list := Print(0x30, AskList(q.asks));
    var p2 := IntegerData(q.second) + list;
    var p1 := IntegerData(q.first) + p2;
    assert AskPdu(q) == IntegerData(q.id) + p1;
    ReadIntegerData(q.id, p1);
    ReadIntegerData(q.first, p2);
    ReadIntegerData(q.second, list);
    assert list + [] == list;
    ExpectPrint(0x30, AskList(q.asks), []);
  }

  lemma ParseContent(q: Inquiry)
    requires InquiryOk(q)
    ensures ParseFields(Content(q))
            == Some(Parsed(1, q.community, q.operation, q.id, q.first, q.second, AskList(q.asks)))
  {
    var pdu := Print(q.operation, AskPdu(q));
    assert Content(q) == IntegerData(1) + (Print(4, q.community) + pdu);
    ReadIntegerData(1, Print(4, q.community) + pdu);
    ExpectPrint(4, q.community, pdu);
    assert pdu + [] == pdu;
    ReadElementOfPrint(q.operation, AskPdu(q), []);
    ParseAskPdu(q);
  }

  lemma ParseDatagramFields(q: Inquiry)
    requires InquiryOk(q)
    ensures ParseMessage(Datagram(q))
            == Some(Parsed(1, q.community, q.operation, q.id, q.first, q.second, AskList(q.asks)))
  {
    assert Datagram(q) == Print(0x30, Content(q)) + [];
    ExpectPrint(0x30, Content(q), []);
    ParseContent(q);
  }

  lemma ParseOf(input: Bytes, p: Parsed, oids: seq<Oid>)
    requires |input| <= 1400 && ParseMessage(input) == Some(p) && ParseBindings(p.list, []) == Some(oids)
    requires p.version == 1 && p.operation in {0xa0, 0xa1, 0xa3, 0xa5}
    ensures ParseRequest(input, p.community) == Some(Request(p.operation, p.id, p.error, p.index, p.list, oids))
  {}

  lemma ParseFieldsAndNames(q: Inquiry, d: Bytes)
    requires InquiryOk(q) && |d| <= 1400
    requires ParseMessage(d) == Some(Parsed(1, q.community, q.operation, q.id, q.first, q.second, AskList(q.asks)))
    ensures ParseRequest(d, q.community)
            == Some(Request(q.operation, q.id, q.first, q.second, AskList(q.asks), Names(q.asks)))
  {
    ParseAsks(q.asks, []);
    assert [] + Names(q.asks) == Names(q.asks);
    ParseOf(d, Parsed(1, q.community, q.operation, q.id, q.first, q.second, AskList(q.asks)), Names(q.asks));
  }

  /** Every request is parsed to its own fields and names. */
  lemma ParseDatagram(q: Inquiry)
    requires InquiryOk(q) && |Datagram(q)| <= 1400
    ensures ParseRequest(Datagram(q), q.community)
            == Some(Request(q.operation, q.id, q.first, q.second, AskList(q.asks), Names(q.asks)))
  {
    ParseDatagramFields(q);
    ParseFieldsAndNames(q, Datagram(q));
  }

  // ----- answers

  /** What a name must be answered with: the object of that name or the least one above it, else the name
      itself with noSuchInstance (0x81), noSuchObject (0x80) or endOfMibView (0x82). */
  ghost predicate AnswerTo(m: Mib, o: Oid, next: bool, a: Answer) {
    match a.value
    case Some(x) =>
      && x in m && a.name == x.oid
      && if next then Less(o, x.oid) && (forall y :: y in m && Less(o, y.oid) ==> y == x || Less(x.oid, y.oid))
         else x.oid == o
    case None =>
      && a.name == o
      && if next then a.exception == 0x82 && (forall x :: x in m ==> !Less(o, x.oid))
         else && (forall x :: x in m ==> x.oid != o)
              && a.exception == if exists x :: x in m && Covers(x, o) then 0x81 else 0x80
  }

  lemma AnswerMeans(m: Mib, o: Oid, next: bool)
    requires Sorted(m)
    ensures AnswerTo(m, o, next, AnswerFor(m, o, next))
  {
    FindIsFirst(m, o, next);
    AnyCoversIff(m, o, 0);
    var r := Find(m, o, next);
    if r.None? {
      forall x | x in m ensures !Matches(x, o, next) {
        var j :| 0 <= j < |m| && m[j] == x;
      }
      assert (exists x :: x in m && Covers(x, o)) <==> exists i :: 0 <= i < |m| && Covers(m[i], o);
    } else if next {
      NextIsLeastGreater(m, o);
      forall y | y in m && Less(o, y.oid) ensures y == m[r.value] || Less(m[r.value].oid, y.oid) {
        var j :| 0 <= j < |m| && m[j] == y;
        assert Matches(m[j], o, next);
      }
    }
  }

  lemma NewRow(m: Mib, oids: seq<Oid>, next: bool, n: nat, row: nat, col: nat)
    requires n <= |oids| && col < |oids| - n
    ensures |Iterated(m, oids, next, n, row)| + col < |Iterated(m, oids, next, n, row + 1)|
    ensures Iterated(m, oids, next, n, row + 1)[|Iterated(m, oids, next, n, row)| + col]
            == AnswerFor(m, Reached(m, oids[n + col], row), next)
  {
    var before, names := Iterated(m, oids, next, n, row), ReachedAll(m, oids[n..], row);
    assert Iterated(m, oids, next, n, row + 1) == before + Answers(m, names, next);
    assert Answers(m, names, next)[col] == AnswerFor(m, names[col], next);
    assert names[col] == Reached(m, oids[n + col], row);
  }

  lemma IteratedRow(m: Mib, oids: seq<Oid>, next: bool, n: nat, r: nat, row: nat, col: nat)
    requires n <= |oids| && row < r && col < |oids| - n
    ensures |Iterated(m, oids, next, n, row)| + col < |Iterated(m, oids, next, n, r)|
    ensures Iterated(m, oids, next, n, r)[|Iterated(m, oids, next, n, row)| + col]
            == AnswerFor(m, Reached(m, oids[n + col], row), next)
  {
    IteratedGrows(m, oids, next, n, row + 1, r);
    NewRow(m, oids, next, n, row, col);
  }

  /** The bindings asked for, by position: the first n names in order, then rows of the others, each row one
      GETNEXT further than the row before. */
  lemma IteratedAt(m: Mib, oids: seq<Oid>, next: bool, n: nat, r: nat, row: nat, col: nat)
    requires n <= |oids| && row < r && col < |oids| - n
    ensures |Iterated(m, oids, next, n, r)| == n + r * (|oids| - n)
    ensures 0 <= n + row * (|oids| - n) + col < |Iterated(m, oids, next, n, r)|
    ensures Iterated(m, oids, next, n, r)[n + row * (|oids| - n) + col]
            == AnswerFor(m, Reached(m, oids[n + col], row), next)
  {
    IteratedSize(m, oids, next, n, r);
    IteratedSize(m, oids, next, n, row);
    IteratedRow(m, oids, next, n, r, row, col);
  }

  lemma {:induction false} IteratedSize(m: Mib, oids: seq<Oid>, next: bool, n: nat, r: nat)
    requires n <= |oids|
    ensures |Iterated(m, oids, next, n, r)| == n + r * (|oids| - n)
    decreases r
  {
    if r > 0 {
      var w := |oids| - n;
      IteratedSize(m, oids, next, n, r - 1);
      assert |Answers(m, ReachedAll(m, oids[n..], r - 1), next)| == w;
      OneMore(r, w);
    }
  }

  lemma OneMore(r: nat, w: nat)
    requires r > 0
    ensures r * w == (r - 1) * w + w
  {}

  lemma IteratedFirst(m: Mib, oids: seq<Oid>, next: bool, n: nat, r: nat, i: nat)
    requires i < n <= |oids|
    ensures i < |Iterated(m, oids, next, n, r)| && Iterated(m, oids, next, n, r)[i] == AnswerFor(m, oids[i], next)
  {
    IteratedGrows(m, oids, next, n, 0, r);
    assert Iterated(m, oids, next, n, 0)[i] == AnswerFor(m, oids[..n][i], next);
  }

  // ----- replies

  /** The names asked for once: all of them, or for GETBULK as many as first says. */
  function Once(q: Inquiry): nat {
    if q.operation != 0xa5 || q.first > |q.asks| then |q.asks| else if q.first < 0 then 0 else q.first
  }

  function Rounds(q: Inquiry): nat {
    if q.operation != 0xa5 || q.second < 0 then 0 else q.second
  }

  /** Everything a request asks for. */
  function Asked(q: Inquiry, m: Mib): seq<Answer> {
    Iterated(m, Names(q.asks), q.operation != 0xa0, Once(q), Rounds(q))
  }

  /** A list of answers that takes used octets is all that is asked for, or stops short because it has 64
      bindings, because the next one might not fit, or after a row in which every repeater is at its end. */
  ghost predicate Stops(q: Inquiry, m: Mib, cap: nat, list: seq<Answer>, used: nat) {
    var whole := Asked(q, m);
    && list <= whole && |list| <= 64
    && (|list| < 64 && list != whole ==>
          || Blocked(q, m, cap, list, used)
          || (exists r :: 1 <= r <= Rounds(q) && RowAtEnd(m, Names(q.asks), Once(q), r)
                          && list == Iterated(m, Names(q.asks), true, Once(q), r)))
  }

  /** The next binding might not fit: 112 octets of the capacity, or of 1400, are kept for the envelope. */
  ghost predicate Blocked(q: Inquiry, m: Mib, cap: nat, list: seq<Answer>, used: nat) {
    var whole := Asked(q, m);
    && |list| < |whole| && AnswerOk(whole[|list|])
    && used + BindingPeak(whole[|list|]) > (if cap > 1400 then 1400 else cap) - 112
  }

  /** A reply as read back: its error status, error index and bindings. */
  ghost predicate Says(q: Inquiry, reply: Bytes, error: int, index: int, list: Bytes) {
    ParseMessage(reply) == Some(Parsed(1, q.community, 0xa2, q.id, error, index, list))
  }

  /** What every request is answered with. SET gets its own bindings back with notWritable (17), or tooBig
      (1); GET and GETNEXT get all their answers, or tooBig; GETBULK gets as many as it can. */
  ghost predicate Served(q: Inquiry, m: Mib, cap: nat, reply: Bytes)
    requires InquiryOk(q)
  {
    if q.operation == 0xa3 then
      || Says(q, reply, if q.asks == [] then 0 else 17, if q.asks == [] then 0 else 1, AskList(q.asks))
      || (Says(q, reply, 1, 0, []) && |AskList(q.asks)| + 93 > cap)
    else
      exists list, data :: ServedWith(q, m, cap, reply, list, data)
  }

  ghost predicate ServedWith(q: Inquiry, m: Mib, cap: nat, reply: Bytes, list: seq<Answer>, data: Bytes) {
    && Stops(q, m, cap, list, |data|) && ReadAnswers(data) == Some(Readings(list))
    && if q.operation == 0xa5 || list == Asked(q, m) then Says(q, reply, 0, 0, data)
       else Says(q, reply, 1, 0, []) && Blocked(q, m, cap, list, |data|)
  }

  /** What the loops leave is a list that stops for one of these reasons; without repetitions only the size
      or the end can be one. */
  lemma OutcomeStops(q: Inquiry, p: Request, m: Mib, cap: nat, list: seq<Answer>, used: nat, full: bool)
    requires InquiryOk(q) && 128 <= cap && q.operation != 0xa3
    requires p == Request(q.operation, q.id, q.first, q.second, AskList(q.asks), Names(q.asks))
    requires Outcome(m, p.oids, p.operation != GET, NonRepeaters(p), Repetitions(p), list, used, Limit(cap), full)
    ensures Stops(q, m, cap, list, used)
    ensures q.operation != 0xa5 ==> (full <==> list != Asked(q, m)) && (full ==> Blocked(q, m, cap, list, used))
  {
    assert Once(q) == NonRepeaters(p) && Rounds(q) == Repetitions(p);
    if q.operation != 0xa5 {
      IteratedSize(m, p.oids, q.operation != 0xa0, Once(q), 0);
    }
  }

  lemma AnsweredIsServed(q: Inquiry, p: Request, m: Mib, cap: nat, r: Reply)
    requires InquiryOk(q) && 128 <= cap && MibOk(m) && ProperTags(m) && q.operation != 0xa3
    requires p == Request(q.operation, q.id, q.first, q.second, AskList(q.asks), Names(q.asks)) && AllLegal(p.oids)
    requires ReplyOk(r) && IsReply(p, q.community, m, cap, r)
    ensures Served(q, m, cap, Message(q.community, r))
  {
    var list: seq<Answer>, parts: seq<Bytes>, full: bool :|
      Answered(p, m, Limit(cap), list, parts, full) && r == Carries(p, parts, full);
    OutcomeStops(q, p, m, cap, list, |Flatten(parts)|, full);
    IteratedIsProper(m, p.oids, q.operation != 0xa0, NonRepeaters(p), Repetitions(p));
    assert AllProper(list);
    ReadAnswersOfParts(parts, list);
    ParseMessageOfMessage(q.community, r);
    assert ServedWith(q, m, cap, Message(q.community, r), list, Flatten(parts));
  }

  lemma RefusedIsServed(q: Inquiry, p: Request, m: Mib, cap: nat, r: Reply)
    requires InquiryOk(q) && 128 <= cap && q.operation == 0xa3
    requires p == Request(q.operation, q.id, q.first, q.second, AskList(q.asks), Names(q.asks))
    requires ReplyOk(r) && IsReply(p, q.community, m, cap, r)
    ensures Served(q, m, cap, Message(q.community, r))
  {
    ParseMessageOfMessage(q.community, r);
    EnvelopeFits(q.community, Echo(p));
  }

  /** snmp_respond() on every request that fits a packet: the octets it leaves are read back as the answer. */
  method Exchange(q: Inquiry, out: array<Byte>, cap: nat, m: Mib) returns (n: nat)
    requires InquiryOk(q) && |Datagram(q)| <= 1400 && 128 <= cap <= out.Length && MibOk(m) && ProperTags(m)
    modifies out
    ensures 0 < n <= cap && Served(q, m, cap, out[..n])
  {
    ghost var reply;
    ParseDatagram(q);
    ParsedRequest(Datagram(q), q.community);
    n, reply := SnmpRespond.SnmpRespond(Datagram(q), out, cap, q.community, m);
    ghost var p := Request(q.operation, q.id, q.first, q.second, AskList(q.asks), Names(q.asks));
    if q.operation == 0xa3 {
      RefusedIsServed(q, p, m, cap, reply);
    } else {
      AnsweredIsServed(q, p, m, cap, reply);
    }
  }
}
