/**
 Framing of HTTP requests: where a request ends, and what the receive loop makes of a byte stream that
 arrives in pieces. The header is read as the source reads it. What it demands of a configuration or
 port form in the body is a parameter, so every result holds whatever forms are accepted.
*/
module WebFraming {
  import opened Common

  const REQUEST_BYTES: nat := 2048
  const AUTHORIZATION_BYTES: nat := 256

  // ----- strings

  predicate Occurs(s: string, pat: string, i: nat) {
    i + |pat| <= |s| && s[i..i + |pat|] == pat
  }

  /** strstr from position i on. */
  function FindFrom(s: string, pat: string, i: nat): (r: Option<nat>)
    requires i <= |s|
    ensures r.Some? ==> i <= r.value && Occurs(s, pat, r.value)
    decreases |s| - i
  {
    if Occurs(s, pat, i) then Some(i) else if i == |s| then None else FindFrom(s, pat, i + 1)
  }

  method Search(s: string, pat: string, from: nat) returns (r: Option<nat>)
    requires from <= |s|
    ensures r == FindFrom(s, pat, from)
  {
    var i := from;
    while !(i + |pat| <= |s| && s[i..i + |pat|] == pat)
      invariant from <= i <= |s| && FindFrom(s, pat, from) == FindFrom(s, pat, i)
      decreases |s| - i
    {
      if i == |s| { return None; }
      i := i + 1;
    }
    r := Some(i);
  }

  /** What is found in a string is found in every extension, at the same place. */
  lemma {:induction false} FindInExtension(s: string, t: string, pat: string, i: nat)
    requires s <= t && pat != "" && i <= |s|
    ensures FindFrom(s, pat, i).Some? ==> FindFrom(t, pat, i) == FindFrom(s, pat, i)
    ensures FindFrom(t, pat, i).Some? && FindFrom(t, pat, i).value + |pat| <= |s| ==>
              FindFrom(s, pat, i) == FindFrom(t, pat, i)
    decreases |s| - i
  {
    if i + |pat| <= |s| { OccursInExtension(s, t, pat, i); }
    if i < |s| { FindInExtension(s, t, pat, i + 1); }
  }

  lemma OccursInExtension(s: string, t: string, pat: string, j: nat)
    requires s <= t && j + |pat| <= |s|
    ensures Occurs(s, pat, j) <==> Occurs(t, pat, j)
  {
    assert s[j..j + |pat|] == t[j..j + |pat|];
  }

  predicate IsSpace(c: char) { c == ' ' || '\t' <= c <= '\r' }

  predicate IsDigit(c: char) { '0' <= c <= '9' }

  function SkipSpace(s: string): string {
    if s != "" && IsSpace(s[0]) then SkipSpace(s[1..]) else s
  }

  /** Blanks after the colon of a field. */
  function SkipBlanks(s: string): string {
    if s != "" && (s[0] == ' ' || s[0] == '\t') then SkipBlanks(s[1..]) else s
  }

  /** How many of the first width characters belong to a word. */
  function WordLength(s: string, width: nat): (n: nat)
    ensures n <= |s| && n <= width
  {
    if s == "" || width == 0 || IsSpace(s[0]) then 0 else 1 + WordLength(s[1..], width - 1)
  }

  /** A %s conversion of at most width characters: the word and what follows. */
  function Word(s: string, width: nat): Option<(string, string)> {
    var t := SkipSpace(s);
    var n := WordLength(t, width);
    if n == 0 then None else Some((t[..n], t[n..]))
  }

  function Lower(s: string): string {
    seq(|s|, i requires 0 <= i < |s| => if 'A' <= s[i] <= 'Z' then (s[i] as int + 32) as char else s[i])
  }

  predicate AllDigits(s: string) { s != "" && forall i :: 0 <= i < |s| ==> IsDigit(s[i]) }

  function Decimal(s: string): nat {
    if s == "" then 0
    else Decimal(s[..|s| - 1]) * 10 + if IsDigit(s[|s| - 1]) then s[|s| - 1] as int - '0' as int else 0
  }

  // ----- the header

  /** What the header says; length is that of Content-Length if there is one. */
  datatype Head = Head(verb: string, path: string, authorization: Option<string>, length: Option<nat>, marker: bool)

  function BodyBytes(h: Head): nat { if h.length.Some? then h.length.value else 0 }

  function ReadRequestLine(line: string): Option<Head> {
    match Word(line, 7)
    case None => None
    case Some((verb, rest)) =>
      match Word(rest, 63)
      case None => None
      case Some((path, rest)) =>
        match Word(rest, 15)
        case None => None
        case Some((version, rest)) =>
          if SkipSpace(rest) != "" || (version != "HTTP/1.1" && version != "HTTP/1.0") then None
          else Some(Head(verb, path, None, None, false))
  }

  function BodyLimit(h: Head): nat { if h.path == "/api/config" then 512 else 64 }

  function ReadField(line: string, h: Head): Option<Head> {
    match FindFrom(line, ":", 0)
    case None => None
    case Some(c) =>
      var name, value := Lower(line[..c]), SkipBlanks(line[c + 1..]);
      if name == "authorization" then
        if h.authorization.Some? || |value| >= AUTHORIZATION_BYTES then None else Some(h.(authorization := Some(value)))
      else if name == "transfer-encoding" then None
      else if name == "content-length" then
        if h.length.Some? || !AllDigits(value) || Decimal(value) > BodyLimit(h) then None
        else Some(h.(length := Some(Decimal(value))))
      else if name == "x-kr260-request" && value == "1" then Some(h.(marker := true))
      else Some(h)
  }

  const CRLF: string := "\r\n"
  const BLANK: string := "\r\n\r\n"

  /** The fields, one to a line. */
  function ReadFields(text: string, h: Head): Option<Head>
    decreases |text|
  {
    if text == "" then Some(h)
    else
      match FindFrom(text, CRLF, 0)
      case None => ReadField(text, h)
      case Some(q) =>
        match ReadField(text[..q], h)
        case None => None
        case Some(next) => ReadFields(text[q + 2..], next)
  }

  /** The header without its closing blank line. */
  function ReadHead(text: string): Option<Head> {
    match FindFrom(text, CRLF, 0)
    case None => ReadRequestLine(text)
    case Some(q) =>
      match ReadRequestLine(text[..q])
      case None => None
      case Some(h) => ReadFields(text[q + 2..], h)
  }

  method ComputeHead(text: string) returns (r: Option<Head>)
    ensures r == ReadHead(text)
  {
    var q := Search(text, CRLF, 0);
    if q.None? { return ReadRequestLine(text); }
    r := ReadRequestLine(text[..q.value]);
    if r.None? { return; }
    var rest := text[q.value + 2..];
    while rest != ""
      invariant r.Some? && ReadHead(text) == ReadFields(rest, r.value)
      decreases |rest|
    {
      q := Search(rest, CRLF, 0);
      if q.None? { return ReadField(rest, r.value); }
      r := ReadField(rest[..q.value], r.value);
      if r.None? { return; }
      rest := rest[q.value + 2..];
    }
  }

  // ----- a request

  /** Incomplete, invalid or accepted: 0, -1 and 1 of the source. */
  datatype Verdict = More | Bad | Done(head: Head, body: string)

  /** Whether a form in the body of a POST is acceptable. */
  type Forms = (Head, string) -> bool

  predicate Acceptable(h: Head, body: string, forms: Forms) {
    if h.verb == "POST" then
      h.marker && BodyBytes(h) > 0 && if h.path == "/api/mac-table" then body == "refresh=1" else forms(h, body)
    else BodyBytes(h) == 0
  }

  function Parse(data: string, forms: Forms): Verdict {
    if |data| >= REQUEST_BYTES || '\0' in data then Bad
    else
      match FindFrom(data, BLANK, 0)
      case None => More
      case Some(k) =>
        match ReadHead(data[..k])
        case None => Bad
        case Some(h) =>
          var whole := k + 4 + BodyBytes(h);
          if |data| < whole then More
          else if |data| > whole || !Acceptable(h, data[k + 4..], forms) then Bad
          else Done(h, data[k + 4..])
  }

  method WebParse(data: string, forms: Forms) returns (v: Verdict)
    ensures v == Parse(data, forms)
  {
    if |data| >= REQUEST_BYTES || '\0' in data { return Bad; }
    var end := Search(data, BLANK, 0);
    if end.None? { return More; }
    var k := end.value;
    var head := ComputeHead(data[..k]);
    if head.None? { return Bad; }
    var whole := k + 4 + BodyBytes(head.value);
    if |data| < whole { return More; }
    if |data| != whole || !Acceptable(head.value, data[k + 4..], forms) { return Bad; }
    v := Done(head.value, data[k + 4..]);
  }

  /** No accepted request is a prefix of another: strict prefixes are incomplete, extensions invalid. */
  lemma AcceptedStandsAlone(s: string, t: string, forms: Forms)
    requires s < t
    ensures Parse(t, forms).Done? ==> Parse(s, forms) == More
    ensures Parse(s, forms).Done? ==> Parse(t, forms) == Bad
  {
    FindInExtension(s, t, BLANK, 0);
    assert '\0' in s ==> '\0' in t;
    SamePrefix(s, t);
  }

  /** An invalid beginning stays invalid. */
  lemma BadStaysBad(s: string, t: string, forms: Forms)
    requires s <= t && Parse(s, forms) == Bad
    ensures Parse(t, forms) == Bad
  {
    if s != t {
      FindInExtension(s, t, BLANK, 0);
      assert '\0' in s ==> '\0' in t;
      SamePrefix(s, t);
    }
  }

  lemma SamePrefix(s: string, t: string)
    requires s <= t
    ensures forall k :: 0 <= k <= |s| ==> s[..k] == t[..k]
  {
  }

  // ----- the receive loop

  function Joined(pieces: seq<string>): string {
    if pieces == [] then "" else Joined(pieces[..|pieces| - 1]) + pieces[|pieces| - 1]
  }

  /** The loop parses after every piece and stops at the first verdict. */
  function Received(pieces: seq<string>, forms: Forms): Verdict {
    if pieces == [] then More
    else
      var before := Received(pieces[..|pieces| - 1], forms);
      if before != More then before else Parse(Joined(pieces), forms)
  }

  method Receive(pieces: seq<string>, forms: Forms) returns (v: Verdict)
    ensures v == Received(pieces, forms)
  {
    v := More;
    var data, i := "", 0;
    while i < |pieces| && v == More
      invariant i <= |pieces| && data == Joined(pieces[..i]) && v == Received(pieces[..i], forms)
    {
      assert pieces[..i + 1][..i] == pieces[..i];
      data := data + pieces[i];
      v := WebParse(data, forms);
      i := i + 1;
    }
    if v != More { StopsAtVerdict(pieces, i, forms); }
    assert pieces[..|pieces|] == pieces;
  }

  lemma {:induction false} StopsAtVerdict(pieces: seq<string>, i: nat, forms: Forms)
    requires i <= |pieces| && Received(pieces[..i], forms) != More
    ensures Received(pieces, forms) == Received(pieces[..i], forms)
  {
    if i < |pieces| {
      var n := |pieces| - 1;
      assert pieces[..n][..i] == pieces[..i];
      StopsAtVerdict(pieces[..n], i, forms);
    } else {
      assert pieces[..i] == pieces;
    }
  }

  lemma {:induction false} JoinedGrows(pieces: seq<string>, i: nat)
    requires i <= |pieces|
    ensures Joined(pieces[..i]) <= Joined(pieces)
  {
    if i < |pieces| {
      var n := |pieces| - 1;
      assert pieces[..n][..i] == pieces[..i];
      JoinedGrows(pieces[..n], i);
    } else {
      assert pieces[..i] == pieces;
    }
  }

  /** A stream that is one accepted request is accepted however it is cut into pieces. */
  lemma {:induction false} AcceptedInPieces(pieces: seq<string>, forms: Forms)
    requires Parse(Joined(pieces), forms).Done?
    ensures Received(pieces, forms) == Parse(Joined(pieces), forms)
  {
    if pieces != [] {
      var n := |pieces| - 1;
      JoinedGrows(pieces, n);
      NothingEarly(pieces[..n], Joined(pieces), forms);
    }
  }

  /** Until then every verdict is "incomplete", or already the final one if the last pieces were empty. */
  lemma {:induction false} NothingEarly(pieces: seq<string>, request: string, forms: Forms)
    requires Joined(pieces) <= request && Parse(request, forms).Done?
    ensures Received(pieces, forms) == More
            || (Joined(pieces) == request && Received(pieces, forms) == Parse(request, forms))
  {
    if pieces != [] {
      var n := |pieces| - 1;
      JoinedGrows(pieces, n);
      NothingEarly(pieces[..n], request, forms);
      if Joined(pieces) < request { AcceptedStandsAlone(Joined(pieces), request, forms); }
      if Joined(pieces[..n]) == request { assert Joined(pieces) == request; }
    }
  }

  ghost predicate CutAt(pieces: seq<string>, request: string) {
    exists i :: 0 <= i <= |pieces| && Joined(pieces[..i]) == request
  }

  /** What becomes of a longer stream that begins with an acceptable request: the request is accepted if
      and only if a piece ends exactly where it ends; otherwise the stream is refused. */
  lemma {:induction false} StreamOutcome(pieces: seq<string>, request: string, forms: Forms)
    requires request <= Joined(pieces) && Parse(request, forms).Done?
    ensures Received(pieces, forms) == if CutAt(pieces, request) then Parse(request, forms) else Bad
  {
    if i: nat :| i <= |pieces| && Joined(pieces[..i]) == request {
      AcceptedInPieces(pieces[..i], forms);
      StopsAtVerdict(pieces, i, forms);
    } else {
      var n := |pieces| - 1;
      assert pieces[..|pieces|] == pieces && Joined(pieces) != request;
      AcceptedStandsAlone(request, Joined(pieces), forms);
      if request <= Joined(pieces[..n]) {
        forall i | 0 <= i <= n ensures Joined(pieces[..n][..i]) != request {
          assert pieces[..n][..i] == pieces[..i];
        }
        StreamOutcome(pieces[..n], request, forms);
      } else {
        JoinedGrows(pieces, n);
        NothingEarly(pieces[..n], request, forms);
      }
    }
  }
}
