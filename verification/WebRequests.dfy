/**
 What web_parse() makes of a request by its parts: a request line, header fields and a body. The meaning of
 the fields is given on names and values, with the limits written out; that the text is cut into just these
 parts, wherever they end, is proved for every request that can be printed from them.
*/
module WebRequests {
  import opened Common
  import opened WebFraming

  // ----- requests as parts

  /** A header field; blanks are the spaces and tabs after the colon. */
  datatype Field = Field(name: string, blanks: string, value: string)

  datatype Request = Request(verb: string, path: string, version: string, fields: seq<Field>, body: string)

  predicate IsWord(s: string) {
    s != "" && forall i :: 0 <= i < |s| ==> s[i] != ' ' && !('\t' <= s[i] <= '\r')
  }

  predicate FieldOk(f: Field) {
    && ':' !in f.name && '\r' !in f.name && '\r' !in f.value
    && (forall i :: 0 <= i < |f.blanks| ==> f.blanks[i] == ' ' || f.blanks[i] == '\t')
    && (f.value != "" ==> f.value[0] != ' ' && f.value[0] != '\t')
  }

  predicate Printable(q: Request) {
    && IsWord(q.verb) && IsWord(q.path) && IsWord(q.version)
    && forall f :: f in q.fields ==> FieldOk(f)
  }

  function Line(f: Field): string { f.name + ":" + f.blanks + f.value }

  /** The lines of the fields, each after a line end. */
  function Lines(fs: seq<Field>): string {
    if fs == [] then "" else "\r\n" + (Line(fs[0]) + Lines(fs[1..]))
  }

  function Start(q: Request): string { q.verb + (" " + (q.path + (" " + q.version))) }

  function Text(q: Request): string { Start(q) + Lines(q.fields) + "\r\n\r\n" + q.body }

  // ----- what a request means

  /** The name is this one, which has no capital letters, but for the case of its letters. */
  predicate Named(name: string, small: string) {
    |name| == |small| && forall i :: 0 <= i < |name| ==>
      name[i] == small[i] || ('a' <= small[i] <= 'z' && name[i] as int == small[i] as int - 0x20)
  }

  /** What one field adds, or that it spoils the request. */
  function Take(f: Field, h: Head): Option<Head> {
    if Named(f.name, "authorization") then
      if h.authorization == None && |f.value| < 256 then Some(h.(authorization := Some(f.value))) else None
    else if Named(f.name, "content-length") then
      if h.length == None && AllDigits(f.value) && Decimal(f.value) <= (if h.path == "/api/config" then 512 else 64)
      then Some(h.(length := Some(Decimal(f.value))))
      else None
    else if Named(f.name, "transfer-encoding") then None
    else if Named(f.name, "x-kr260-request") then Some(if f.value == "1" then h.(marker := true) else h)
    else Some(h)
  }

  function TakeAll(fs: seq<Field>, h: Head): Option<Head> {
    if fs == [] then Some(h)
    else match Take(fs[0], h)
      case None => None
      case Some(next) => TakeAll(fs[1..], next)
  }

  /** A verb of at most 7 characters, a path of at most 63 and version 1.0 or 1.1. */
  predicate Plain(q: Request) {
    |q.verb| <= 7 && |q.path| <= 63 && (q.version == "HTTP/1.1" || q.version == "HTTP/1.0")
  }

  function HeadOf(q: Request): Option<Head> {
    if !Plain(q) then None
    else TakeAll(q.fields, Head(q.verb, q.path, None, None, false))
  }

  /** A POST has the marker and a body; anything else has none. */
  predicate BodyFits(h: Head, body: string, forms: Forms) {
    if h.verb == "POST" then
      && h.marker && body != ""
      && if h.path == "/api/mac-table" then body == "refresh=1" else forms(h, body)
    else body == ""
  }

  function Meaning(q: Request, forms: Forms): Verdict {
    if |Text(q)| >= 2048 || '\0' in Text(q) then Bad
    else match HeadOf(q)
      case None => Bad
      case Some(h) =>
        var announced := if h.length == None then 0 else h.length.value;
        if |q.body| < announced then More
        else if |q.body| == announced && BodyFits(h, q.body, forms) then Done(h, q.body)
        else Bad
  }

  // ----- cutting the text

  lemma {:induction false} SkipTo(s: string, pat: string, i: nat, j: nat)
    requires i <= j <= |s| && forall k :: i <= k < j ==> !Occurs(s, pat, k)
    ensures FindFrom(s, pat, i) == FindFrom(s, pat, j)
    decreases j - i
  {
    if i < j { SkipTo(s, pat, i + 1, j); }
  }

  lemma NotAt(s: string, pat: string, k: nat)
    requires pat != "" && k < |s| && s[k] != pat[0]
    ensures !Occurs(s, pat, k)
  {
    if k + |pat| <= |s| { assert s[k..k + |pat|][0] == s[k]; }
  }

  /** A pattern is found where it stands, when nothing before it begins like it. */
  lemma FirstAt(s: string, pat: string, k: nat)
    requires pat != "" && Occurs(s, pat, k) && forall j :: 0 <= j < k ==> s[j] != pat[0]
    ensures FindFrom(s, pat, 0) == Some(k)
  {
    forall j | 0 <= j < k ensures !Occurs(s, pat, j) { NotAt(s, pat, j); }
    SkipTo(s, pat, 0, k);
  }

  lemma FoundAfter(a: string, pat: string, b: string)
    requires pat != "" && pat[0] !in a
    ensures FindFrom(a + (pat + b), pat, 0) == Some(|a|)
  {
    var s := a + (pat + b);
    assert s[|a|..|a| + |pat|] == pat;
    FirstAt(s, pat, |a|);
  }

  lemma NotFound(a: string, pat: string)
    requires pat != "" && pat[0] !in a
    ensures FindFrom(a, pat, 0) == None
  {
    forall k | 0 <= k < |a| ensures !Occurs(a, pat, k) { NotAt(a, pat, k); }
    SkipTo(a, pat, 0, |a|);
  }

  lemma {:induction false} BlanksSkipped(blanks: string, value: string)
    requires forall i :: 0 <= i < |blanks| ==> blanks[i] == ' ' || blanks[i] == '\t'
    requires value != "" ==> value[0] != ' ' && value[0] != '\t'
    ensures SkipBlanks(blanks + value) == value
  {
    if blanks == "" {
      assert blanks + value == value;
    } else {
      assert (blanks + value)[1..] == blanks[1..] + value;
      BlanksSkipped(blanks[1..], value);
    }
  }

  predicate Small(s: string) { forall i :: 0 <= i < |s| ==> !('A' <= s[i] <= 'Z') }

  lemma NamedIff(name: string, small: string)
    requires Small(small)
    ensures Lower(name) == small <==> Named(name, small)
  {
    if |name| == |small| {
      forall i | 0 <= i < |name|
        ensures Lower(name)[i] == small[i] <==>
                name[i] == small[i] || ('a' <= small[i] <= 'z' && name[i] as int == small[i] as int - 0x20)
      {}
    }
  }

  lemma FieldRead(f: Field, h: Head)
    requires FieldOk(f)
    ensures ReadField(Line(f), h) == Take(f, h)
  {
    NamedIff(f.name, "authorization");
    NamedIff(f.name, "content-length");
    NamedIff(f.name, "transfer-encoding");
    NamedIff(f.name, "x-kr260-request");
    var s := Line(f);
    assert s == f.name + (":" + (f.blanks + f.value));
    FoundAfter(f.name, ":", f.blanks + f.value);
    assert s[..|f.name|] == f.name && s[|f.name| + 1..] == f.blanks + f.value;
    BlanksSkipped(f.blanks, f.value);
  }

  lemma LineHasNoEnd(f: Field)
    requires FieldOk(f)
    ensures '\r' !in Line(f) && Line(f) != ""
  {
    assert Line(f)[|f.name|] == ':';
  }

  /** The fields of a first line and of those after it. */
  lemma FieldsCut(line: string, tail: string, h: Head)
    requires '\r' !in line
    ensures ReadFields(line + ("\r\n" + tail), h) ==
            match ReadField(line, h) case None => None case Some(next) => ReadFields(tail, next)
  {
    var s := line + ("\r\n" + tail);
    FoundAfter(line, "\r\n", tail);
    assert s[..|line|] == line && s[|line| + 2..] == tail;
  }

  lemma FieldsLast(line: string, h: Head)
    requires '\r' !in line && line != ""
    ensures ReadFields(line, h) == ReadField(line, h)
  {
    NotFound(line, "\r\n");
  }

  lemma {:induction false} FieldsRead(fs: seq<Field>, h: Head)
    requires fs != [] && forall f :: f in fs ==> FieldOk(f)
    ensures ReadFields(Line(fs[0]) + Lines(fs[1..]), h) == TakeAll(fs, h)
    decreases |fs|
  {
    var line, rest := Line(fs[0]), fs[1..];
    LineHasNoEnd(fs[0]);
    FieldRead(fs[0], h);
    if rest == [] {
      assert line + Lines(rest) == line;
      FieldsLast(line, h);
    } else {
      FieldsCut(line, Line(rest[0]) + Lines(rest[1..]), h);
      match Take(fs[0], h) {
        case None =>
        case Some(next) => FieldsRead(rest, next);
      }
    }
  }

  // ----- numbers

  /** A number as it is written. */
  function Numeral(n: nat): string {
    (if n < 10 then "" else Numeral(n / 10)) + ["0123456789"[n % 10]]
  }

  /** The length announced is the number written, in digits from 0 to 9 and tens. */
  lemma {:induction false} DecimalOfNumeral(n: nat)
    ensures AllDigits(Numeral(n)) && Decimal(Numeral(n)) == n
  {
    var d := "0123456789"[n % 10];
    assert IsDigit(d) && d as int - '0' as int == n % 10;
    var front := if n < 10 then "" else Numeral(n / 10);
    assert Numeral(n)[..|Numeral(n)| - 1] == front;
    if n >= 10 { DecimalOfNumeral(n / 10); }
  }

  // ----- the request line

  function Cut(n: nat, width: nat): nat { if n < width then n else width }

  lemma {:induction false} WordOf(s: string, rest: string, width: nat)
    requires (forall i :: 0 <= i < |s| ==> !IsSpace(s[i])) && (rest != "" ==> IsSpace(rest[0]))
    ensures WordLength(s + rest, width) == Cut(|s|, width)
    decreases |s|
  {
    if s == "" {
      assert s + rest == rest;
    } else if width > 0 {
      assert (s + rest)[1..] == s[1..] + rest;
      WordOf(s[1..], rest, width - 1);
    }
  }

  /** A conversion takes a word, or its first characters when it is longer, with or without a space before. */
  lemma WordRead(s: string, rest: string, width: nat)
    requires IsWord(s) && width > 0 && (rest != "" ==> IsSpace(rest[0]))
    ensures var n := Cut(|s|, width);
            && Word(s + rest, width) == Some((s[..n], s[n..] + rest))
            && Word(" " + (s + rest), width) == Some((s[..n], s[n..] + rest))
  {
    var n := Cut(|s|, width);
    WordOf(s, rest, width);
    assert SkipSpace(s + rest) == s + rest;
    assert (" " + (s + rest))[1..] == s + rest;
    assert (s + rest)[..n] == s[..n] && (s + rest)[n..] == s[n..] + rest;
  }

  lemma {:induction false} SomethingLeft(s: string, k: nat)
    requires k < |s| && !IsSpace(s[k])
    ensures SkipSpace(s) != ""
  {
    if IsSpace(s[0]) { SomethingLeft(s[1..], k - 1); }
  }

  lemma WordFits(s: string, rest: string, width: nat)
    requires IsWord(s) && |s| <= width && (rest != "" ==> IsSpace(rest[0]))
    ensures Word(s + rest, width) == Some((s, rest)) && Word(" " + (s + rest), width) == Some((s, rest))
  {
    WordRead(s, rest, width);
    assert s[..|s|] == s && s[|s|..] + rest == rest;
  }

  lemma LastWord(s: string, width: nat)
    requires IsWord(s) && |s| <= width
    ensures Word(" " + s, width) == Some((s, ""))
  {
    WordFits(s, "", width);
    assert s + "" == s;
  }

  /** The request line from what its three conversions take. */
  lemma ThreeWords(line: string, verb: string, r1: string, path: string, r2: string, version: string, r3: string)
    requires Word(line, 7) == Some((verb, r1)) && Word(r1, 63) == Some((path, r2))
    requires Word(r2, 15) == Some((version, r3))
    ensures ReadRequestLine(line) ==
            if SkipSpace(r3) == "" && (version == "HTTP/1.1" || version == "HTTP/1.0")
            then Some(Head(verb, path, None, None, false)) else None
  {}

  lemma LeftOf(pre: string, s: string)
    requires IsWord(s)
    ensures SkipSpace(pre + s) != ""
  {
    SomethingLeft(pre + s, |pre|);
  }

  /** A word that does not fit is cut, and something of it is left. */
  lemma WordCut(s: string, rest: string, width: nat) returns (t: string)
    requires IsWord(s) && |s| > width > 0 && (rest != "" ==> IsSpace(rest[0]))
    ensures IsWord(t) && |t| == |s| - width
    ensures Word(s + rest, width) == Some((s[..width], t + rest))
    ensures Word(" " + (s + rest), width) == Some((s[..width], t + rest))
  {
    WordRead(s, rest, width);
    t := s[width..];
  }

  /** A conversion on words that are followed by a last one leaves at least that. */
  lemma LastStays(s: string, pre: string, last: string, width: nat) returns (word: string, rest: string)
    requires IsWord(s) && IsWord(last) && width > 0 && (pre != "" ==> IsSpace(pre[0])) && pre != ""
    ensures Word(s + (pre + last), width) == Some((word, rest)) && SkipSpace(rest) != ""
    ensures Word(" " + (s + (pre + last)), width) == Some((word, rest))
  {
    WordRead(s, pre + last, width);
    var n := Cut(|s|, width);
    word, rest := s[..n], s[n..] + (pre + last);
    LeftOf(s[n..] + pre, last);
    assert s[n..] + pre + last == rest;
  }

  lemma LastCut(s: string, width: nat) returns (t: string)
    requires IsWord(s) && |s| > width > 0
    ensures Word(" " + s, width) == Some((s[..width], t)) && SkipSpace(t) != ""
  {
    t := WordCut(s, "", width);
    assert s + "" == s && t + "" == t;
    LeftOf("", t);
    assert "" + t == t;
  }

  lemma LongPath(q: Request)
    requires Printable(q) && |q.verb| <= 7 && |q.path| > 63
    ensures ReadRequestLine(Start(q)) == None
  {
    WordFits(q.verb, " " + (q.path + (" " + q.version)), 7);
    var p := WordCut(q.path, " " + q.version, 63);
    var word, rest := LastStays(p, " ", q.version, 15);
    ThreeWords(Start(q), q.verb, " " + (q.path + (" " + q.version)), q.path[..63], p + (" " + q.version), word, rest);
  }

  lemma LongVersion(q: Request)
    requires Printable(q) && |q.verb| <= 7 && |q.path| <= 63 && |q.version| > 15
    ensures ReadRequestLine(Start(q)) == None
  {
    WordFits(q.verb, " " + (q.path + (" " + q.version)), 7);
    WordFits(q.path, " " + q.version, 63);
    var v := LastCut(q.version, 15);
    ThreeWords(Start(q), q.verb, " " + (q.path + (" " + q.version)), q.path, " " + q.version, q.version[..15], v);
  }

  lemma LongVerb(q: Request)
    requires Printable(q) && |q.verb| > 7
    ensures ReadRequestLine(Start(q)) == None
  {
    var tail := " " + (q.path + (" " + q.version));
    var v := WordCut(q.verb, tail, 7);
    if |v| <= 63 {
      WordFits(v, tail, 63);
      var word, rest := LastStays(q.path, " ", q.version, 15);
      ThreeWords(Start(q), q.verb[..7], v + tail, v, tail, word, rest);
    } else {
      VeryLongVerb(q, v, tail);
    }
  }

  lemma VeryLongVerb(q: Request, v: string, tail: string)
    requires Printable(q) && tail == " " + (q.path + (" " + q.version)) && IsWord(v) && |v| > 63 && |q.verb| > 7
    requires Word(Start(q), 7) == Some((q.verb[..7], v + tail))
    ensures ReadRequestLine(Start(q)) == None
  {
    var w := WordCut(v, tail, 63);
    assert tail == " " + q.path + " " + q.version;
    var word, rest := LastStays(w, " " + q.path + " ", q.version, 15);
    ThreeWords(Start(q), q.verb[..7], v + tail, v[..63], w + tail, word, rest);
  }

  lemma StartFits(q: Request)
    requires Printable(q) && |q.verb| <= 7 && |q.path| <= 63 && |q.version| <= 15
    ensures ReadRequestLine(Start(q)) == if Plain(q) then Some(Head(q.verb, q.path, None, None, false)) else None
  {
    var tail := " " + (q.path + (" " + q.version));
    WordFits(q.verb, tail, 7);
    WordFits(q.path, " " + q.version, 63);
    LastWord(q.version, 15);
    ThreeWords(Start(q), q.verb, tail, q.path, " " + q.version, q.version, "");
  }

  lemma StartRead(q: Request)
    requires Printable(q)
    ensures ReadRequestLine(Start(q)) == if Plain(q) then Some(Head(q.verb, q.path, None, None, false)) else None
    ensures '\r' !in Start(q)
  {
    if |q.verb| > 7 {
      LongVerb(q);
    } else if |q.path| > 63 {
      LongPath(q);
    } else if |q.version| > 15 {
      LongVersion(q);
    } else {
      StartFits(q);
    }
  }

  lemma HeadCut(line: string, tail: string)
    requires '\r' !in line
    ensures ReadHead(line + ("\r\n" + tail)) ==
            match ReadRequestLine(line) case None => None case Some(h) => ReadFields(tail, h)
  {
    var s := line + ("\r\n" + tail);
    FoundAfter(line, "\r\n", tail);
    assert s[..|line|] == line && s[|line| + 2..] == tail;
  }

  lemma HeadLast(line: string)
    requires '\r' !in line
    ensures ReadHead(line) == ReadRequestLine(line)
  {
    NotFound(line, "\r\n");
  }

  lemma HeadRead(q: Request)
    requires Printable(q)
    ensures ReadHead(Start(q) + Lines(q.fields)) == HeadOf(q)
  {
    StartRead(q);
    var line := Start(q);
    if q.fields == [] {
      assert line + Lines(q.fields) == line;
      HeadLast(line);
    } else {
      HeadCut(line, Line(q.fields[0]) + Lines(q.fields[1..]));
      FieldsRead(q.fields, Head(q.verb, q.path, None, None, false));
    }
  }

  // ----- the blank line

  lemma OccursShift(pre: string, s: string, pat: string, i: nat)
    ensures Occurs(pre + s, pat, |pre| + i) <==> Occurs(s, pat, i)
  {
    if i + |pat| <= |s| {
      assert (pre + s)[|pre| + i..|pre| + i + |pat|] == s[i..i + |pat|];
    }
  }

  function Later(r: Option<nat>, d: nat): Option<nat> {
    match r case None => None case Some(k) => Some(d + k)
  }

  lemma {:induction false} SearchAlong(t: string, s: string, d: nat, pat: string, i: nat)
    requires |t| == d + |s| && i <= |s|
    requires forall j: nat :: j <= |s| ==> (Occurs(s, pat, j) <==> Occurs(t, pat, d + j))
    ensures FindFrom(t, pat, d + i) == Later(FindFrom(s, pat, i), d)
    decreases |s| - i
  {
    var here := Occurs(s, pat, i);
    if !here && i < |s| { SearchAlong(t, s, d, pat, i + 1); }
  }

  /** A search that starts after a prefix is a search without it. */
  lemma FindShift(pre: string, s: string, pat: string)
    ensures FindFrom(pre + s, pat, |pre|) == Later(FindFrom(s, pat, 0), |pre|)
  {
    forall j: nat | j <= |s| ensures Occurs(s, pat, j) <==> Occurs(pre + s, pat, |pre| + j) {
      OccursShift(pre, s, pat, j);
    }
    SearchAlong(pre + s, s, |pre|, pat, 0);
  }

  /** No blank line inside a line that is followed by another. */
  lemma NoBlankInside(line: string, next: string)
    requires '\r' !in line && next != "" && next[0] != '\r'
    ensures forall k :: 0 <= k < |line| + 2 ==> !Occurs(line + "\r\n" + next, "\r\n\r\n", k)
  {
    var s := line + "\r\n" + next;
    assert s[|line|] == '\r' && s[|line| + 1] == '\n' && s[|line| + 2] == next[0];
    forall k | 0 <= k < |line| + 2 ensures !Occurs(s, "\r\n\r\n", k) {
      if k < |line| { assert s[k] == line[k]; }
      if k + 4 <= |s| {
        assert s[k..k + 4][0] == s[k] && s[k..k + 4][2] == s[k + 2];
        assert "\r\n\r\n"[0] == '\r' && "\r\n\r\n"[2] == '\r';
      }
    }
  }

  lemma Regroup(a: string, b: string, c: string, d: string, e: string)
    ensures a + ((b + (c + d)) + e) == a + b + (c + (d + e))
  {}

  lemma {:induction false} BlankFound(line: string, fs: seq<Field>, body: string)
    requires '\r' !in line && forall f :: f in fs ==> FieldOk(f)
    ensures FindFrom(line + (Lines(fs) + ("\r\n\r\n" + body)), "\r\n\r\n", 0) == Some(|line| + |Lines(fs)|)
    decreases |fs|
  {
    var end := "\r\n\r\n" + body;
    if fs == [] {
      assert Lines(fs) + end == end;
      FoundAfter(line, "\r\n\r\n", body);
    } else {
      LineHasNoEnd(fs[0]);
      BlankFound(Line(fs[0]), fs[1..], body);
      BlankLater(line, Line(fs[0]) + (Lines(fs[1..]) + end));
      Regroup(line, "\r\n", Line(fs[0]), Lines(fs[1..]), end);
    }
  }

  /** The blank line is found after a first line as it is without it. */
  lemma BlankLater(line: string, next: string)
    requires '\r' !in line && next != "" && next[0] != '\r'
    ensures FindFrom(line + "\r\n" + next, "\r\n\r\n", 0) ==
            Later(FindFrom(next, "\r\n\r\n", 0), |line| + 2)
  {
    NoBlankInside(line, next);
    SkipTo(line + "\r\n" + next, "\r\n\r\n", 0, |line| + 2);
    FindShift(line + "\r\n", next, "\r\n\r\n");
  }

  /** A verdict from the place of the blank line. */
  lemma ParseAt(data: string, k: nat, head: Option<Head>, body: string, forms: Forms)
    requires |data| < 2048 && '\0' !in data && k + 4 <= |data| && FindFrom(data, "\r\n\r\n", 0) == Some(k)
    requires ReadHead(data[..k]) == head && data[k + 4..] == body
    ensures Parse(data, forms) ==
            match head
            case None => Bad
            case Some(h) => if |body| < BodyBytes(h) then More
                            else if |body| == BodyBytes(h) && Acceptable(h, body, forms) then Done(h, body) else Bad
  {}

  /** Every request that can be printed is judged by its parts: its own verb, path, fields and body. */
  lemma ParseOfText(q: Request, forms: Forms)
    requires Printable(q)
    ensures Parse(Text(q), forms) == Meaning(q, forms)
  {
    var a, b, s := Start(q), Lines(q.fields), Text(q);
    if |s| < 2048 && '\0' !in s {
      StartRead(q);
      BlankFound(a, q.fields, q.body);
      Cuts(a, b, q.body);
      HeadRead(q);
      ParseAt(s, |a + b|, HeadOf(q), q.body, forms);
    }
  }

  lemma Cuts(a: string, b: string, c: string)
    ensures var s := a + b + "\r\n\r\n" + c;
            s == a + (b + ("\r\n\r\n" + c)) && s[..|a + b|] == a + b && s[|a + b| + 4..] == c
  {}
}
