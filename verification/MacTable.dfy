/**
 The MAC table snapshot: the dump engine writes a staging buffer behind the CPU's cache, the driver
 hands the buffer over and takes it back, and the web service publishes a copy page by page.

 The cache is modelled line by line. Between any two operations lines may be prefetched or evicted,
 and a running engine may write bursts. What the hardware forbids is a precondition: the buffer is
 read or invalidated only when the engine is stopped, and handed over only when no line is dirty.
*/
module MacTable {
  import opened Common

  const ENTRIES: nat := 2048
  const RECORD_BYTES: nat := 16
  const BURST: nat := 16          // records a burst writes
  const DUMP_BYTES: nat := 32768
  const PAGES: nat := 16
  const PAGE: nat := 128

  datatype Record = Record(mac: nat, mask: nat, age: nat, index: nat, valid: bool)

  /** A cache line of 32 bytes holds two records; the buffer is aligned to whole lines. */
  datatype Line = Line(even: Record, odd: Record, dirty: bool)
  {
    function At(i: nat): Record { if i % 2 == 0 then even else odd }
  }

  const LINES: nat := 1024

  // ----- the engine, its memory and the CPU's cache of it

  class Engine {
    var ddr: seq<Record>
    var cache: map<nat, Line>
    var running: bool
    var done: bool
    var error: bool
    var completed: nat
    var code: nat
    ghost var dump: seq<Record>   // what the acknowledged bursts of the last start carried
    ghost var dumps: seq<seq<Record>>   // every dump that ran to its end without error

    ghost predicate Valid()
      reads this
    {
      && |ddr| == ENTRIES && |dump| <= ENTRIES && |dump| % BURST == 0
      && (forall l :: l in cache ==> l < LINES)
      && completed == RECORD_BYTES * |dump|
      && (running ==> !done && |dump| < ENTRIES)
      && (done && !error ==> |dump| == ENTRIES && dumps != [] && dumps[|dumps| - 1] == dump)
    }

    /** No cached line holds data that memory does not. */
    ghost predicate Clean()
      reads this
    {
      forall l :: l in cache ==> !cache[l].dirty
    }

    /** Every cached line agrees with memory. */
    ghost predicate Coherent()
      reads this
    {
      && |ddr| == ENTRIES
      && forall l :: l in cache && l < LINES ==> cache[l].even == ddr[2 * l] && cache[l].odd == ddr[2 * l + 1]
    }

    /** Acknowledged records are in memory. */
    ghost predicate Landed()
      reads this
    {
      |dump| <= |ddr| && ddr[..|dump|] == dump
    }

    /** Everything but the cache and the memory behind it. */
    twostate predicate SameStatus()
      reads this
    {
      && running == old(running) && done == old(done) && error == old(error)
      && completed == old(completed) && code == old(code) && dump == old(dump) && dumps == old(dumps)
    }

    method Prefetch(l: nat)
      requires Valid() && l < LINES
      modifies this`cache
      ensures Valid() && (old(Clean()) ==> Clean())
      ensures old(Coherent()) ==> Coherent()
      ensures cache == if l in old(cache) then old(cache) else old(cache)[l := Line(ddr[2 * l], ddr[2 * l + 1], false)]
    {
      if l !in cache {
        cache := cache[l := Line(ddr[2 * l], ddr[2 * l + 1], false)];
      }
    }

    method Evict(l: nat)
      requires Valid()
      modifies this`cache, this`ddr
      ensures Valid() && (old(Clean()) ==> Clean() && ddr == old(ddr))
      ensures old(Coherent()) ==> Coherent()
    {
      if l in cache {
        if cache[l].dirty {
          ddr := ddr[2 * l := cache[l].even][2 * l + 1 := cache[l].odd];
        }
        cache := cache - {l};
      }
    }

    /** One burst: acknowledged, or failed after writing part of it. */
    method Burst(records: seq<Record>, ok: bool, written: nat)
      requires Valid() && running && |records| == BURST && written <= BURST
      modifies this
      ensures Valid() && cache == old(cache)
      ensures dumps == if done && !error then old(dumps) + [dump] else old(dumps)
      ensures dump == (if ok then old(dump) + records else old(dump)) && completed == 16 * |dump|
      ensures if ok then running == (|dump| < 2048) && error == old(error) && code == old(code)
              else !running && done && error && code == 1
      ensures old(Landed()) ==> Landed()
      ensures running || done
    {
      var at := completed / RECORD_BYTES;
      var n := if ok then BURST else written;
      ddr := ddr[..at] + records[..n] + ddr[at + n..];
      if ok {
        completed, dump := completed + RECORD_BYTES * BURST, dump + records;
        if completed == DUMP_BYTES {
          running, done, dumps := false, true, if error then dumps else dumps + [dump];
        }
      } else {
        running, done, error, code := false, true, true, 1;
      }
    }

    /** Any number of cache and engine events, in any order. */
    method Pass()
      requires Valid()
      modifies this
      ensures Valid()
      ensures dumps == if old(running) && done && !error then old(dumps) + [dump] else old(dumps)
      ensures old(Clean()) ==> Clean()
      ensures old(Clean() && Landed()) ==> Landed()
      ensures !old(running) ==> SameStatus()
      ensures !old(running) && old(Clean()) ==> ddr == old(ddr) && (old(Coherent()) ==> Coherent())
      ensures old(running) && !running ==> done
    {
      var events: nat :| true;
      for k := 0 to events
        invariant Valid()
        invariant dumps == if old(running) && done && !error then old(dumps) + [dump] else old(dumps)
        invariant old(Clean()) ==> Clean()
        invariant old(Clean() && Landed()) ==> Landed()
        invariant !old(running) ==> SameStatus()
        invariant !old(running) && old(Clean()) ==> ddr == old(ddr) && (old(Coherent()) ==> Coherent())
        invariant old(running) && !running ==> done
      {
        var l: nat, choice: nat := *, *;
        if choice == 0 && l < LINES {
          Prefetch(l);
        } else if choice == 1 {
          Evict(l);
        } else if running {
          var records: seq<Record>, ok: bool, written: nat := *, *, *;
          if |records| == BURST && written <= BURST {
            Burst(records, ok, written);
          }
        }
      }
    }

    /** Writes every dirty line back and empties the cache. */
    method FlushRange()
      requires Valid()
      modifies this`cache, this`ddr
      ensures Valid() && cache == map[]
      ensures forall i :: 0 <= i < ENTRIES ==>
                ddr[i] == if i / 2 in old(cache) && old(cache)[i / 2].dirty
                          then old(cache)[i / 2].At(i) else old(ddr)[i]
    {
      for l := 0 to LINES
        invariant Valid() && cache == old(cache)
        invariant forall i :: 0 <= i < ENTRIES ==>
                    ddr[i] == if i / 2 < l && i / 2 in cache && cache[i / 2].dirty
                              then cache[i / 2].At(i) else old(ddr)[i]
      {
        if l in cache && cache[l].dirty {
          ddr := ddr[2 * l := cache[l].even][2 * l + 1 := cache[l].odd];
        }
      }
      cache := map[];
    }

    /** Drops every line; the engine must have let go of the buffer. */
    method InvalidateRange()
      requires Valid() && !running
      modifies this`cache
      ensures Valid() && cache == map[]
    {
      cache := map[];
    }

    /** Hands the buffer to the engine, which forgets its previous result. */
    method Start()
      requires Valid() && !running && Clean()
      modifies this
      ensures Valid() && running && !done && !error && dump == [] && cache == old(cache) && ddr == old(ddr)
              && dumps == old(dumps)
    {
      running, done, error, completed, code, dump := true, false, false, 0, 0, [];
    }

    /** A load by the CPU. */
    method Read(i: nat) returns (r: Record)
      requires Valid() && !running && i < ENTRIES
      ensures Coherent() ==> r == ddr[i]
    {
      r := if i / 2 in cache then cache[i / 2].At(i) else ddr[i];
    }
  }

  // ----- the driver

  datatype Result = Idle | Busy | Done | Error | Unavailable | BadBuffer | Started

  /** The number each result has in the source. */
  function Code(r: Result): (n: nat)
    ensures n <= 6
  {
    match r
    case Idle => 0 case Busy => 1 case Done => 2 case Error => 3
    case Unavailable => 4 case BadBuffer => 5 case Started => 6
  }

  class Driver {
    const engine: Engine
    var owned: bool

    /** While the engine owns the buffer no line is dirty and what it acknowledged is in memory. An
        engine that runs without being owned was left over from before a restart. */
    ghost predicate Valid()
      reads this, engine
    {
      engine.Valid() && (owned ==> engine.Clean() && engine.Landed() && (engine.running || engine.done))
    }

    constructor (e: Engine)
      requires e.Valid()
      ensures Valid() && engine == e && !owned
    {
      engine, owned := e, false;
    }

    method Start(address: nat, bytes: nat, present: bool) returns (r: Result)
      requires Valid()
      modifies this, engine
      ensures Valid()
      ensures r == Started <==>
              && !old(owned) && 0 < address <= 0x7fff8000 && address % 256 == 0 && bytes >= 32768
              && present && !old(engine.running)
      ensures r == Started ==> owned && engine.running && engine.dump == [] && engine.dumps == old(engine.dumps)
      ensures r != Started ==>
                && owned == old(owned) && engine.SameStatus() && engine.ddr == old(engine.ddr)
                && engine.cache == old(engine.cache)
      ensures r != Started ==>
                r == if old(owned) then Busy
                     else if address == 0 || address > 0x7fff8000 || address % 256 != 0 || bytes < 32768 then BadBuffer
                     else if !present then Unavailable else Busy
    {
      if owned {
        return Busy;
      }
      if address == 0 || bytes < DUMP_BYTES || address % 256 != 0 || address > 0x7fff8000 {
        return BadBuffer;
      }
      if !present {
        return Unavailable;
      }
      if engine.running {
        return Busy;
      }
      owned := true;
      engine.FlushRange();
      engine.Start();
      return Started;
    }

    /** DONE or ERROR gives the buffer back, with no stale line in the cache. */
    method Poll() returns (r: Result, completed: nat, code: nat)
      requires Valid()
      modifies this`owned, engine`cache
      ensures Valid()
      ensures r == if !old(owned) then Idle else if engine.running || !engine.done then Busy
                   else if engine.error then Error else Done
      ensures if r == Done || r == Error then !owned && engine.Coherent() && engine.Clean() && !engine.running
              else owned == old(owned) && engine.cache == old(engine.cache)
      ensures r == Done || r == Error ==> completed == engine.completed && code == engine.code
      ensures r == Done ==> completed == 32768 && |engine.dump| == 2048 && engine.ddr == engine.dump
    {
      completed, code := 0, 0;
      if !owned {
        return Idle, completed, code;
      }
      if engine.running || !engine.done {
        return Busy, completed, code;
      }
      engine.InvalidateRange();
      completed, code := engine.completed, engine.code;
      owned := false;
      r := if engine.error then Error else Done;
    }
  }

  // ----- snapshots and pages

  /** The valid records of a table, in order. */
  function Listing(s: seq<Record>): seq<Record> {
    if s == [] then [] else Listing(s[..|s| - 1]) + if s[|s| - 1].valid then [s[|s| - 1]] else []
  }

  /** A listing has every valid record as often as the table, and nothing else. */
  lemma {:induction false} ListingIsExact(s: seq<Record>, r: Record)
    ensures multiset(Listing(s))[r] == if r.valid then multiset(s)[r] else 0
  {
    if s != [] {
      ListingIsExact(s[..|s| - 1], r);
      assert s == s[..|s| - 1] + [s[|s| - 1]];
    }
  }

  lemma {:induction false} NothingListed(s: seq<Record>)
    requires forall i :: 0 <= i < |s| ==> !s[i].valid
    ensures Listing(s) == []
  {
    if s != [] { NothingListed(s[..|s| - 1]); }
  }

  lemma {:induction false} ListingOfConcat(a: seq<Record>, b: seq<Record>)
    ensures Listing(a + b) == Listing(a) + Listing(b)
  {
    if b == [] {
      assert a + b == a;
    } else {
      var n := |b| - 1;
      ListingOfConcat(a, b[..n]);
      assert (a + b)[..|a + b| - 1] == a + b[..n];
    }
  }

  function PageOf(s: seq<Record>, page: nat): seq<Record>
    requires |s| == ENTRIES && page < PAGES
  {
    Listing(s[page * PAGE..page * PAGE + PAGE])
  }

  /** The first pages of an answer, put one after the other. */
  function Joined(pages: seq<seq<Record>>): seq<Record> {
    if pages == [] then [] else Joined(pages[..|pages| - 1]) + pages[|pages| - 1]
  }

  lemma {:induction false} PagesJoin(s: seq<Record>, pages: seq<seq<Record>>)
    requires |s| == ENTRIES && |pages| <= PAGES
    requires forall k :: 0 <= k < |pages| ==> pages[k] == PageOf(s, k)
    ensures Joined(pages) == Listing(s[..|pages| * PAGE])
  {
    if pages != [] {
      var n := |pages| - 1;
      PagesJoin(s, pages[..n]);
      ListingOfConcat(s[..n * PAGE], s[n * PAGE..n * PAGE + PAGE]);
      assert s[..n * PAGE] + s[n * PAGE..n * PAGE + PAGE] == s[..|pages| * PAGE];
    }
  }

  /** The generation after n publications: it skips 0 when the 32-bit counter wraps. */
  ghost function Generation(n: nat): nat {
    if n == 0 then 0 else if Generation(n - 1) + 1 == WORD32 then 1 else Generation(n - 1) + 1
  }

  lemma {:induction false} GenerationIsCyclic(n: nat)
    ensures Generation(n) == if n == 0 then 0 else (n - 1) % (WORD32 - 1) + 1
  {
    if n > 1 { GenerationIsCyclic(n - 1); }
  }

  /** A generation comes back only after a whole counter period. */
  lemma SameGeneration(m: nat, n: nat)
    requires Generation(m) == Generation(n) && m <= n < m + (WORD32 - 1)
    ensures m == n
  {
    GenerationIsCyclic(m);
    GenerationIsCyclic(n);
  }

  /** A page answer records how many publications preceded it. */
  datatype Answer = Answer(generation: nat, entries: seq<Record>, publications: nat)

  /** The answer to a request for a page while history held the snapshots so far. */
  ghost predicate Answers(a: Answer, page: nat, history: seq<seq<Record>>) {
    && 0 < a.publications <= |history| && page < PAGES
    && |history[a.publications - 1]| == ENTRIES
    && a.generation == Generation(a.publications)
    && a.entries == PageOf(history[a.publications - 1], page)
  }

  /** Sixteen pages that carry one generation belong to one snapshot and list its valid records exactly,
      however requests and publications interleaved, short of a whole counter period. */
  lemma PagesOfOneGeneration(answers: seq<Answer>, history: seq<seq<Record>>)
    requires |answers| == PAGES && forall k :: 0 <= k < PAGES ==> Answers(answers[k], k, history)
    requires forall k :: 0 <= k < PAGES ==> answers[k].generation == answers[0].generation
    requires forall j, k :: 0 <= j < PAGES && 0 <= k < PAGES ==>
               answers[k].publications < answers[j].publications + (WORD32 - 1)
    ensures 0 < answers[0].publications <= |history|
    ensures Joined(seq(PAGES, k requires 0 <= k < PAGES => answers[k].entries))
            == Listing(history[answers[0].publications - 1])
  {
    assert Answers(answers[0], 0, history);
    var n := answers[0].publications;
    var s := history[n - 1];
    var pages := seq(PAGES, k requires 0 <= k < PAGES => answers[k].entries);
    forall k | 0 <= k < PAGES ensures pages[k] == PageOf(s, k) {
      var m := answers[k].publications;
      if m <= n { SameGeneration(m, n); } else { SameGeneration(n, m); }
    }
    PagesJoin(s, pages);
    assert s[..PAGES * PAGE] == s;
  }

  // ----- the web service

  /** A request for the overview, with or without a refresh, or for one page. */
  datatype Request = Overview(refresh: bool) | Page(page: nat)

  datatype Response = Response(status: nat, busy: bool, ready: bool, generation: nat, count: nat, error: nat,
                               completed: nat, entries: seq<Record>)

  /** The error reported when a dump does not start: 105 for a buffer the engine cannot use, 104 without an
      engine, 101 when the engine still runs. */
  function Refusal(address: nat, bytes: nat, present: bool): nat {
    if address == 0 || address > 0x7fff8000 || address % 256 != 0 || bytes < 32768 then 105
    else if !present then 104 else 101
  }

  /** A request as it arrives, with whether the engine is present then. */
  datatype Call = Call(q: Request, present: bool)

  /** Among these responses, picks[k] answers page k from a snapshot, all sixteen with one generation. */
  ghost predicate Collects(picks: seq<nat>, calls: seq<Call>, rs: seq<Response>) {
    && |picks| == 16 && |calls| == |rs|
    && forall k :: 0 <= k < PAGES ==>
         && picks[k] < |rs| && calls[picks[k]].q == Page(k) && rs[picks[k]].ready
         && picks[0] < |rs| && rs[picks[k]].generation == rs[picks[0]].generation
  }

  ghost function Collected(picks: seq<nat>, calls: seq<Call>, rs: seq<Response>): seq<Record>
    requires Collects(picks, calls, rs)
  {
    Joined(seq(PAGES, k requires 0 <= k < PAGES => rs[picks[k]].entries))
  }

  /** What one response says about the snapshots, at of which had been published when it was made. */
  ghost predicate Answered(call: Call, r: Response, at: nat, history: seq<seq<Record>>) {
    call.q.Page? && r.ready ==> Answers(Answer(r.generation, r.entries, at), call.q.page, history)
  }

  /** Later publications leave an answer as it was. */
  lemma AnsweredLater(call: Call, r: Response, at: nat, history: seq<seq<Record>>, later: seq<seq<Record>>)
    requires Answered(call, r, at, history) && history <= later
    ensures Answered(call, r, at, later)
  {
    if call.q.Page? && r.ready {
      assert later[at - 1] == history[at - 1];
    }
  }

  /** The responses so far, with first snapshots published before them. */
  ghost predicate AllAnswered(calls: seq<Call>, rs: seq<Response>, at: seq<nat>, first: nat,
                              history: seq<seq<Record>>)
  {
    && |at| == |rs| <= |calls|
    && forall k :: 0 <= k < |rs| ==> first <= at[k] <= |history| && Answered(calls[k], rs[k], at[k], history)
  }

  lemma OneMoreAnswered(calls: seq<Call>, rs: seq<Response>, at: seq<nat>, first: nat, history: seq<seq<Record>>,
                        r: Response, later: seq<seq<Record>>)
    requires AllAnswered(calls, rs, at, first, history) && |rs| < |calls| && history <= later && first <= |history|
    requires Answered(calls[|rs|], r, |later|, later)
    ensures AllAnswered(calls, rs + [r], at + [|later|], first, later)
  {
    forall k | 0 <= k < |rs| ensures Answered(calls[k], rs[k], at[k], later) {
      AnsweredLater(calls[k], rs[k], at[k], history, later);
    }
  }

  /** Collected pages are the whole of one of the snapshots published by then. */
  lemma CollectedIsOneSnapshot(picks: seq<nat>, calls: seq<Call>, rs: seq<Response>, at: seq<nat>,
                               first: nat, history: seq<seq<Record>>)
    requires Collects(picks, calls, rs) && |history| < first + (WORD32 - 1)
    requires AllAnswered(calls, rs, at, first, history)
    ensures 0 < at[picks[0]] && Collected(picks, calls, rs) == Listing(history[at[picks[0]] - 1])
  {
    var answers := seq(PAGES, k requires 0 <= k < PAGES =>
      Answer(rs[picks[k]].generation, rs[picks[k]].entries, at[picks[k]]));
    forall k | 0 <= k < PAGES ensures Answers(answers[k], k, history) {
      assert Answered(calls[picks[k]], rs[picks[k]], at[picks[k]], history);
    }
    PagesOfOneGeneration(answers, history);
    assert seq(PAGES, k requires 0 <= k < PAGES => answers[k].entries)
        == seq(PAGES, k requires 0 <= k < PAGES => rs[picks[k]].entries);
  }

  /** Every snapshot is a dump that the engine completed without error, in order and none twice. */
  ghost predicate Drawn(history: seq<seq<Record>>, taken: seq<nat>, dumps: seq<seq<Record>>) {
    && |taken| == |history|
    && (forall k :: 0 <= k < |taken| ==> taken[k] < |dumps| && history[k] == dumps[taken[k]])
    && (forall j, k :: 0 <= j < k < |taken| ==> taken[j] < taken[k])
  }

  lemma DrawnStep(history: seq<seq<Record>>, taken: seq<nat>, dumps: seq<seq<Record>>)
    requires Drawn(history, taken, dumps) && dumps != [] && (taken != [] ==> taken[|taken| - 1] < |dumps| - 1)
    ensures Drawn(history + [dumps[|dumps| - 1]], taken + [|dumps| - 1], dumps)
  {
  }

  lemma DrawnLater(history: seq<seq<Record>>, taken: seq<nat>, dumps: seq<seq<Record>>, later: seq<seq<Record>>)
    requires Drawn(history, taken, dumps) && dumps <= later
    ensures Drawn(history, taken, later)
  {
    forall k | 0 <= k < |taken| ensures taken[k] < |later| && history[k] == later[taken[k]] {
      assert later[taken[k]] == dumps[taken[k]];
    }
  }

  class Service {
    const driver: Driver
    const engine: Engine
    var published: seq<Record>
    var busy: bool
    var ready: bool
    var generation: nat
    var error: nat
    var completed: nat
    var count: nat
    ghost var history: seq<seq<Record>>
    ghost var taken: seq<nat>   // which of the engine's complete dumps each snapshot is

    /** The snapshots are drawn from the dumps, and one that ended well while awaited is not yet among them. */
    ghost predicate Genuine()
      reads this, engine
    {
      && Drawn(history, taken, engine.dumps)
      && (busy && engine.done && !engine.error && taken != [] ==> taken[|taken| - 1] < |engine.dumps| - 1)
    }

    ghost predicate Valid()
      reads this, driver, engine
    {
      && Genuine()
      && driver.engine == engine && driver.Valid() && busy == driver.owned
      && |published| == ENTRIES && count == |Listing(published)|
      && generation == Generation(|history|)
      && (ready <==> history != [])
      && (ready ==> published == history[|history| - 1])
    }

    /** Copies the staging buffer, which the engine has given back. */
    method Copy() returns (copy: seq<Record>)
      requires engine.Valid() && engine.Clean() && engine.Coherent() && !engine.running
      modifies engine
      ensures engine.Valid() && engine.SameStatus() && engine.Clean() && engine.ddr == old(engine.ddr)
              && copy == engine.ddr
    {
      copy := [];
      for i := 0 to ENTRIES
        invariant engine.Valid() && engine.SameStatus() && engine.Clean() && engine.Coherent()
        invariant engine.ddr == old(engine.ddr) && copy == engine.ddr[..i]
      {
        engine.Pass();
        var r := engine.Read(i);
        copy := copy + [r];
      }
    }

    method CountValid(s: seq<Record>) returns (n: nat)
      ensures n == |Listing(s)|
    {
      n := 0;
      for i := 0 to |s|
        invariant n == |Listing(s[..i])|
      {
        assert s[..i + 1][..i] == s[..i];
        if s[i].valid {
          n := n + 1;
        }
      }
      assert s[..|s|] == s;
    }

    constructor (d: Driver)
      requires d.Valid() && !d.owned
      ensures Valid() && driver == d && engine == d.engine && !busy && !ready && history == []
    {
      driver, engine := d, d.engine;
      published := seq(ENTRIES, _ => Record(0, 0, 0, 0, false));
      busy, ready, generation, error, completed, count, history, taken := false, false, 0, 0, 0, 0, [], [];
      new;
      NothingListed(published);
    }

    /** Makes the returned buffer the new snapshot, under the next generation. */
    method Publish()
      requires driver.engine == engine && driver.Valid() && !driver.owned && generation == Generation(|history|)
      requires engine.Clean() && engine.Coherent() && !engine.running && engine.ddr == engine.dump
      requires engine.dumps != [] && engine.dumps[|engine.dumps| - 1] == engine.dump
      requires Drawn(history, taken, engine.dumps) && (taken != [] ==> taken[|taken| - 1] < |engine.dumps| - 1)
      modifies this`published, this`ready, this`generation, this`count, this`history, this`taken, engine
      ensures driver.Valid() && engine.SameStatus()
      ensures |published| == ENTRIES && count == |Listing(published)| && ready && generation == Generation(|history|)
      ensures history == old(history) + [engine.dump] && published == engine.dump
      ensures Drawn(history, taken, engine.dumps)
    {
      published := Copy();
      count := CountValid(published);
      ready := true;
      DrawnStep(history, taken, engine.dumps);
      generation := if generation + 1 == WORD32 then 1 else generation + 1;
      history, taken := history + [engine.dump], taken + [|engine.dumps| - 1];
    }

    /** Takes a finished dump back. Only a complete one without error is published. */
    method Settle()
      requires Valid() && busy
      modifies this`published, this`busy, this`ready, this`generation, this`error, this`completed, this`count
      modifies this`history, this`taken, driver`owned, engine
      ensures Valid() && engine.SameStatus()
      ensures busy == !(engine.done && !engine.running)
      ensures if !busy && !engine.error
              then history == old(history) + [engine.dump] && published == engine.dump
              else history == old(history) && published == old(published)
      ensures !busy ==> completed == engine.completed
                        && error == (if engine.error && engine.code == 0 then 100 else engine.code)
    {
      var r, bytes, code := driver.Poll();
      if r == Done || r == Error {
        completed, error, busy := bytes, code, false;
        if r == Done && completed == DUMP_BYTES {
          Publish();
        } else if error == 0 {
          error := 100;
        }
      }
    }

    /** Starts a dump unless one is under way. */
    method Refresh(address: nat, bytes: nat, present: bool)
      requires Valid() && !busy
      modifies this`busy, this`error, this`completed, driver, engine
      ensures Valid() && engine.dumps == old(engine.dumps)
      ensures busy <==>
              && 0 < address <= 0x7fff8000 && address % 256 == 0 && bytes >= 32768
              && present && !old(engine.running)
      ensures busy ==> error == 0 && completed == 0 && engine.running && engine.dump == []
      ensures !busy ==> error == Refusal(address, bytes, present) && engine.SameStatus()
    {
      var r := driver.Start(address, bytes, present);
      if r == Started {
        busy, error, completed := true, 0, 0;
      } else {
        error := 100 + Code(r);
      }
    }

    /** The entries of one page of the published snapshot. */
    method ListPage(page: nat) returns (entries: seq<Record>)
      requires |published| == ENTRIES && page < PAGES
      ensures entries == PageOf(published, page)
    {
      entries := [];
      var start := page * PAGE;
      ghost var part := published[start..start + PAGE];
      for i := start to start + PAGE
        invariant entries == Listing(part[..i - start])
      {
        assert part[..i + 1 - start][..i - start] == part[..i - start];
        if published[i].valid {
          entries := entries + [published[i]];
        }
      }
      assert part[..PAGE] == part;
    }

    /** Any amount of cache and engine activity. */
    method Await()
      requires Valid()
      modifies engine
      ensures Valid() && old(engine.dumps) <= engine.dumps
    {
      engine.Pass();
      DrawnLater(history, taken, old(engine.dumps), engine.dumps);
    }

    /** Waits, and takes back a dump that has finished by then. */
    method Catch()
      requires Valid()
      modifies this, driver`owned, engine
      ensures Valid() && old(engine.dumps) <= engine.dumps && (busy ==> engine.running)
      ensures if history == old(history) then published == old(published) && generation == old(generation)
              else && engine.dumps != [] && history == old(history) + [engine.dumps[|engine.dumps| - 1]]
                   && generation != 0 && generation != old(generation)
    {
      Await();
      if busy {
        Settle();
      }
    }

    /** One request, after any amount of cache and engine activity since the last. */
    method Serve(q: Request, address: nat, bytes: nat, present: bool) returns (resp: Response)
      requires Valid() && (q.Page? ==> q.page < PAGES)
      modifies this, driver, engine
      ensures Valid() && old(engine.dumps) <= engine.dumps
      ensures history == old(history)
              || (engine.dumps != [] && history == old(history) + [engine.dumps[|engine.dumps| - 1]])
      ensures history == old(history) ==> published == old(published) && generation == old(generation)
      ensures history != old(history) ==> generation != 0 && generation != old(generation)
      ensures resp.busy == busy && resp.ready == ready && resp.generation == generation
              && resp.count == |Listing(published)|
      ensures resp.error == error && resp.completed == completed
      ensures resp.status == if q == Overview(true) && busy then 202 else 200
      ensures busy ==> engine.running
      ensures q == Overview(true) && !busy ==> resp.error == Refusal(address, bytes, present)
      ensures q.Page? && ready ==> Answers(Answer(resp.generation, resp.entries, |history|), q.page, history)
      ensures q.Overview? || !ready ==> resp.entries == []
    {
      Catch();
      if q == Overview(true) && !busy {
        Refresh(address, bytes, present);
      }
      var entries := [];
      if q.Page? && ready {
        entries := ListPage(q.page);
      }
      resp := Response(if q == Overview(true) && busy then 202 else 200,
                       busy, ready, generation, count, error, completed, entries);
    }

    /** Any run of requests. When response k was made, at[k] snapshots had been published. */
    method ServeEach(calls: seq<Call>, address: nat, bytes: nat) returns (rs: seq<Response>, ghost at: seq<nat>)
      requires Valid() && forall c :: c in calls && c.q.Page? ==> c.q.page < PAGES
      modifies this, driver, engine
      ensures Valid() && |rs| == |calls| && old(history) <= history && old(engine.dumps) <= engine.dumps
      ensures AllAnswered(calls, rs, at, |old(history)|, history)
    {
      rs, at := [], [];
      for i := 0 to |calls|
        invariant Valid() && |rs| == i && old(history) <= history && old(engine.dumps) <= engine.dumps
        invariant AllAnswered(calls, rs, at, |old(history)|, history)
      {
        ghost var before := history;
        var r := Serve(calls[i].q, address, bytes, calls[i].present);
        OneMoreAnswered(calls, rs, at, |old(history)|, before, r, history);
        rs, at := rs + [r], at + [|history|];
      }
    }

    /** However refreshes, dumps and page requests interleave, sixteen pages that carry one generation join into
        the valid records of one dump that the engine completed, short of a whole counter period. */
    method ServeAll(calls: seq<Call>, address: nat, bytes: nat) returns (rs: seq<Response>)
      requires Valid() && forall c :: c in calls && c.q.Page? ==> c.q.page < PAGES
      modifies this, driver, engine
      ensures Valid() && |rs| == |calls| && old(history) <= history && old(engine.dumps) <= engine.dumps
      ensures forall picks :: |history| < |old(history)| + (WORD32 - 1) && Collects(picks, calls, rs) ==>
                exists n :: 0 <= n < |history| && |old(history)| <= n + 1
                  && Collected(picks, calls, rs) == Listing(history[n]) && history[n] == engine.dumps[taken[n]]
    {
      ghost var at;
      rs, at := ServeEach(calls, address, bytes);
      forall picks | |history| < |old(history)| + (WORD32 - 1) && Collects(picks, calls, rs)
        ensures 0 < at[picks[0]] <= |history| && Collected(picks, calls, rs) == Listing(history[at[picks[0]] - 1])
      {
        CollectedIsOneSnapshot(picks, calls, rs, at, |old(history)|, history);
      }
    }
  }
}
