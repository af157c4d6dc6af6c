/**
 What a manager reads from a reply: the bindings with their names and values, recovered from the
 octets with the same element, name and integer rules that the engine's own reader has.
*/
module SnmpReply {
  import opened Common
  import opened Ber
  import opened SnmpWriter
  import opened SnmpMib
  import opened SnmpAgent
  import opened SnmpRespond

  datatype Value = Exceptional(exception: Byte) | Text(text: Bytes) | Name(name: Oid) | Number(tag: Byte, number: int)

  datatype Reading = Reading(name: Oid, value: Value)

  /** noSuchObject, noSuchInstance and endOfMibView. */
  predicate IsException(tag: Byte) { 0x80 <= tag <= 0x82 }

  function ReadValue(e: Element): Option<Value> {
    if IsException(e.tag) then (if e.content == [] then Some(Exceptional(e.tag)) else None)
    else if e.tag == 4 then Some(Text(e.content))
    else if e.tag == 6 then
      match ReadOid(e.content)
      case None => None
      case Some(o) => Some(Name(o))
    else if e.content == [] then None
    else Some(Number(e.tag, Signed(e.content)))
  }

  function ReadAnswer(list: Bytes): (r: Option<(Reading, Bytes)>)
    ensures r.Some? ==> |r.value.1| < |list|
  {
    match Expect(list, 0x30)
    case None => None
    case Some((binding, rest)) =>
      match Expect(binding, 6)
      case None => None
      case Some((name, value)) =>
        match ReadOid(name)
        case None => None
        case Some(o) =>
          match ReadElement(value)
          case None => None
          case Some(e) =>
            match ReadValue(e)
            case None => None
            case Some(v) => if e.rest == [] then Some((Reading(o, v), rest)) else None
  }

  function ReadAnswers(list: Bytes): Option<seq<Reading>>
    decreases |list|
  {
    if list == [] then Some([])
    else
      match ReadAnswer(list)
      case None => None
      case Some((first, rest)) =>
        match ReadAnswers(rest)
        case None => None
        case Some(others) => Some([first] + others)
  }

  // ----- what an answer means

  /** An answer whose exceptions and value tags do not get in each other's way. */
  predicate Proper(a: Answer) {
    AnswerOk(a) && if a.value.None? then IsException(a.exception) else !IsException(a.value.value.tag)
  }

  /** An object identifier value is always the project's root; numbers are 64-bit, INTEGER is signed. */
  function Meant(a: Answer): Value {
    match a.value
    case None => Exceptional(a.exception)
    case Some(x) =>
      if x.tag == 4 then Text(x.text)
      else if x.tag == 6 then Name([1, 3, 6, 1, 4, 1, 32473, 1])
      else if x.tag == 2 && x.number >= 0x8000_0000_0000_0000 then Number(2, x.number - 0x1_0000_0000_0000_0000)
      else Number(x.tag, x.number)
  }

  function Readings(list: seq<Answer>): (s: seq<Reading>)
    ensures |s| == |list|
  {
    if list == [] then [] else [Reading(list[0].name, Meant(list[0]))] + Readings(list[1..])
  }

  lemma ReadNumber(tag: Byte, v: int)
    requires |IntegerOctets(v)| < 128
    ensures ReadElement(PrintNumber(tag, v)) == Some(Element(tag, IntegerOctets(v), []))
            && Signed(IntegerOctets(v)) == v
  {
    SignedOfIntegerOctets(v);
    var p := IntegerOctets(v);
    assert PrintNumber(tag, v) == Print(tag, p) + [];
    ReadElementOfPrint(tag, p, []);
  }

  lemma ReadValueOf(a: Answer)
    requires Proper(a)
    ensures ReadElement(ValueData(a)).Some? && ReadElement(ValueData(a)).value.rest == []
    ensures ReadValue(ReadElement(ValueData(a)).value) == Some(Meant(a))
  {
    match a.value
    case None =>
      assert ValueData(a) == Print(a.exception, []) + [];
      ReadElementOfPrint(a.exception, [], []);
    case Some(x) =>
      if x.tag == 4 {
        assert ValueData(a) == Print(4, x.text) + [];
        ReadElementOfPrint(4, x.text, []);
      } else if x.tag == 6 {
        OidSize(PROJECT_ROOT);
        assert ValueData(a) == Print(6, OidContent(PROJECT_ROOT)) + [];
        ReadElementOfPrint(6, OidContent(PROJECT_ROOT), []);
        ReadOidOfContent(PROJECT_ROOT);
      } else {
        NumberIsShort(x.tag, x.number);
        ReadNumber(x.tag, Meaning(x.tag, x.number));
      }
  }

  /** Every binding the engine prints is read back, name and value, with what follows it. */
  lemma ReadAnswerOfBinding(a: Answer, rest: Bytes)
    requires Proper(a)
    ensures ReadAnswer(BindingData(a) + rest) == Some((Reading(a.name, Meant(a)), rest))
  {
    ValueSize(a);
    OidSize(a.name);
    ExpectPrint(0x30, BindingContent(a), rest);
    ExpectPrint(6, OidContent(a.name), ValueData(a));
    ReadOidOfContent(a.name);
    ReadValueOf(a);
  }

  lemma {:induction false} FlattenFront(parts: seq<Bytes>)
    requires parts != []
    ensures Flatten(parts) == parts[0] + Flatten(parts[1..])
  {
    var n := |parts| - 1;
    if n == 0 {
      assert parts[..0] == [] && parts[1..] == [];
      assert [] + parts[0] == parts[0] + [];
    } else {
      var front, last, mid := parts[..n], parts[n], parts[1..n];
      FlattenFront(front);
      assert front[0] == parts[0] && front[1..] == mid;
      assert parts[1..][..n - 1] == mid && parts[1..][n - 1] == last;
      assert parts[0] + Flatten(mid) + last == parts[0] + (Flatten(mid) + last);
    }
  }

  /** A list of printed bindings is read back as the answers it encodes, in order. */
  lemma {:induction false} ReadAnswersOfParts(parts: seq<Bytes>, list: seq<Answer>)
    requires Encodes(parts, list) && forall i :: 0 <= i < |list| ==> Proper(list[i])
    ensures ReadAnswers(Flatten(parts)) == Some(Readings(list))
    decreases |list|
  {
    if list != [] {
      FlattenFront(parts);
      assert IsBinding(parts[0], list[0]);
      ReadAnswerOfBinding(list[0], Flatten(parts[1..]));
      forall j | 0 <= j < |list| - 1 ensures IsBinding(parts[1..][j], list[1..][j]) {
        assert IsBinding(parts[j + 1], list[j + 1]);
      }
      ReadAnswersOfParts(parts[1..], list[1..]);
    }
  }

  /** The whole way back: from the octets of a reply to its request id, error fields and bindings. */
  lemma ReplyIsReadBack(community: Bytes, r: Reply, parts: seq<Bytes>, list: seq<Answer>)
    requires CommunityOk(community) && ReplyOk(r) && r.list == Flatten(parts)
    requires Encodes(parts, list) && forall i :: 0 <= i < |list| ==> Proper(list[i])
    ensures ParseMessage(Message(community, r)) == Some(Parsed(1, community, 0xa2, r.id, r.error, r.index, r.list))
    ensures ReadAnswers(r.list) == Some(Readings(list))
  {
    ParseMessageOfMessage(community, r);
    ReadAnswersOfParts(parts, list);
  }

  /** What the engine answers over a table with proper tags is proper, for every name and operation. */
  lemma AnswersAreProper(m: Mib, o: Oid, next: bool)
    requires MibOk(m) && Legal(o) && ProperTags(m)
    ensures Proper(AnswerFor(m, o, next))
  {
    AnswerForOk(m, o, next);
  }

  ghost predicate ProperTags(m: Mib) {
    forall i :: 0 <= i < |m| ==> !IsException(m[i].tag)
  }

  ghost predicate AllProper(list: seq<Answer>) {
    forall i :: 0 <= i < |list| ==> Proper(list[i])
  }

  lemma RowIsProper(m: Mib, names: seq<Oid>, next: bool)
    requires MibOk(m) && ProperTags(m) && AllLegal(names)
    ensures AllProper(Answers(m, names, next))
  {
    forall i | 0 <= i < |names| ensures Proper(Answers(m, names, next)[i]) {
      AnswersAreProper(m, names[i], next);
    }
  }

  lemma {:induction false} IteratedIsProper(m: Mib, oids: seq<Oid>, next: bool, n: nat, r: nat)
    requires MibOk(m) && ProperTags(m) && AllLegal(oids) && n <= |oids|
    ensures AllProper(Iterated(m, oids, next, n, r))
    decreases r
  {
    if r == 0 {
      RowIsProper(m, oids[..n], next);
    } else {
      var names := ReachedAll(m, oids[n..], r - 1);
      forall i | 0 <= i < |names| ensures Legal(names[i]) {
        ReachedLegal(m, oids[n..][i], r - 1);
      }
      RowIsProper(m, names, next);
      IteratedIsProper(m, oids, next, n, r - 1);
    }
  }

  /** The list is one whose bindings a manager reads in a reply. */
  ghost predicate Reads(r: Reply, list: seq<Answer>) { ReadAnswers(r.list) == Some(Readings(list)) }

  /** Every reply without an error to GET, GETNEXT or GETBULK is read back, octet for octet, as its request
      id and a prefix of the answers of iterated GETNEXT, with every name and value. */
  lemma SentIsReadBack(q: Request, community: Bytes, m: Mib, cap: nat, r: Reply)
    requires CommunityOk(community) && cap >= 128 && ReplyOk(r) && IsReply(q, community, m, cap, r)
    requires MibOk(m) && ProperTags(m) && AllLegal(q.oids) && q.operation != SET && r.error == 0
    ensures ParseMessage(Message(community, r)) == Some(Parsed(1, community, 0xa2, q.id, 0, 0, r.list))
    ensures exists list ::
              list <= Iterated(m, q.oids, q.operation != GET, NonRepeaters(q), Repetitions(q)) && Reads(r, list)
  {
    var list: seq<Answer>, parts: seq<Bytes>, full: bool :|
      Answered(q, m, Limit(cap), list, parts, full) && r == Carries(q, parts, full);
    IteratedIsProper(m, q.oids, q.operation != GET, NonRepeaters(q), Repetitions(q));
    assert AllProper(list);
    ReplyIsReadBack(community, r, parts, list);
    assert Reads(r, list);
  }
}
