/**
 The passive IPv4 table. A fixed array of 128 entries is scanned, expired and overwritten in place
 by every ARP frame. Read as a map from address to binding, each observation is one map update that
 drops at most one unexpired binding.
*/
module IpDiscovery {
  import opened Common

  const CAPACITY: nat := 128
  const PER_MAC: nat := 4
  const TTL: nat := 600000

  datatype Mac = Mac(a: Byte, b: Byte, c: Byte, d: Byte, e: Byte, f: Byte)
  datatype Ip = Ip(a: Byte, b: Byte, c: Byte, d: Byte)

  datatype Entry = Entry(mac: Mac, ip: Ip, seen: nat, valid: bool)
  datatype Binding = Binding(mac: Mac, seen: nat)
  datatype Observation = Observation(ip: Ip, age: nat)

  /** Unsigned 64-bit subtraction. */
  function Since(now: nat, seen: nat): nat {
    (now - seen) % WORD64
  }

  /** No valid entry is from the future, and times are 64-bit. */
  ghost predicate Past(es: seq<Entry>, now: nat) {
    now < WORD64 && forall i :: 0 <= i < |es| && es[i].valid ==> es[i].seen <= now
  }

  ghost predicate Distinct(es: seq<Entry>) {
    forall i, j :: 0 <= i < j < |es| && es[i].valid && es[j].valid ==> es[i].ip != es[j].ip
  }

  predicate Owned(e: Entry, mac: Mac) { e.valid && e.mac == mac }

  function Share(es: seq<Entry>, mac: Mac): (n: nat)
    ensures n <= |es|
  {
    if es == [] then 0 else Share(es[..|es| - 1], mac) + if Owned(es[|es| - 1], mac) then 1 else 0
  }

  ghost predicate Fair(es: seq<Entry>) {
    forall mac :: Share(es, mac) <= 4
  }

  ghost predicate TableInv(es: seq<Entry>) {
    |es| == 128 && Distinct(es) && Fair(es)
  }

  // ----- the table as a map

  ghost function Bindings(es: seq<Entry>): map<Ip, Binding> {
    if es == [] then map[]
    else
      var e := es[|es| - 1];
      var m := Bindings(es[..|es| - 1]);
      if e.valid then m[e.ip := Binding(e.mac, e.seen)] else m
  }

  /** m holds the valid entries and nothing else. */
  ghost predicate Holds(es: seq<Entry>, m: map<Ip, Binding>) {
    && (forall i :: 0 <= i < |es| && es[i].valid ==> es[i].ip in m && m[es[i].ip] == Binding(es[i].mac, es[i].seen))
    && (forall p :: p in m ==> exists i :: 0 <= i < |es| && es[i].valid && es[i].ip == p)
  }

  lemma {:induction false} BindingsHold(es: seq<Entry>)
    requires Distinct(es)
    ensures Holds(es, Bindings(es))
  {
    if es != [] {
      var n := |es| - 1;
      BindingsHold(es[..n]);
      var m, k := Bindings(es[..n]), Bindings(es);
      forall p | p in k ensures exists i :: 0 <= i < |es| && es[i].valid && es[i].ip == p {
        if es[n].valid && p == es[n].ip {
          assert es[n].ip == p;
        } else {
          var i :| 0 <= i < n && es[..n][i].valid && es[..n][i].ip == p;
          assert es[i].ip == p;
        }
      }
      forall i | 0 <= i < |es| && es[i].valid ensures es[i].ip in k && k[es[i].ip] == Binding(es[i].mac, es[i].seen) {
        if i < n { assert es[..n][i] == es[i]; }
      }
    }
  }

  /** The map is determined by the entries, whatever slots they sit in. */
  lemma HoldsIsUnique(es: seq<Entry>, m: map<Ip, Binding>)
    requires Distinct(es) && Holds(es, m)
    ensures m == Bindings(es)
  {
    BindingsHold(es);
    var k := Bindings(es);
    forall p | p in m ensures p in k && m[p] == k[p] {
      var i :| 0 <= i < |es| && es[i].valid && es[i].ip == p;
    }
    forall p | p in k ensures p in m {
      var i :| 0 <= i < |es| && es[i].valid && es[i].ip == p;
    }
  }

  lemma LastIsNew(es: seq<Entry>)
    requires Distinct(es) && es != [] && es[|es| - 1].valid
    ensures es[|es| - 1].ip !in Bindings(es[..|es| - 1])
  {
    var n := |es| - 1;
    BindingsHold(es[..n]);
    assert forall i :: 0 <= i < n ==> es[..n][i] == es[i];
  }

  predicate AllValid(es: seq<Entry>) {
    es == [] || (AllValid(es[..|es| - 1]) && es[|es| - 1].valid)
  }

  lemma {:induction false} AllValidAt(es: seq<Entry>)
    ensures AllValid(es) <==> forall i :: 0 <= i < |es| ==> es[i].valid
  {
    if es != [] {
      var n := |es| - 1;
      AllValidAt(es[..n]);
      assert forall i :: 0 <= i < n ==> es[..n][i] == es[i];
    }
  }

  /** Every slot is in use exactly when the map is as large as the table. */
  lemma {:induction false} SizeOfBindings(es: seq<Entry>)
    requires Distinct(es)
    ensures |Bindings(es)| <= |es|
    ensures |Bindings(es)| == |es| <==> AllValid(es)
  {
    if es != [] {
      var n := |es| - 1;
      SizeOfBindings(es[..n]);
      if es[n].valid {
        LastIsNew(es);
        assert |Bindings(es)| == |Bindings(es[..n])| + 1;
      }
    }
  }

  lemma NothingValid(es: seq<Entry>)
    requires forall i :: 0 <= i < |es| ==> !es[i].valid
    ensures Bindings(es) == map[] && Fair(es)
  {
    HoldsIsUnique(es, map[]);
    forall mac ensures Share(es, mac) == 0 {
      NoShare(es, mac);
    }
  }

  lemma {:induction false} NoShare(es: seq<Entry>, mac: Mac)
    requires forall i :: 0 <= i < |es| ==> !es[i].valid
    ensures Share(es, mac) == 0
  {
    if es != [] { NoShare(es[..|es| - 1], mac); }
  }

  // ----- what one slot update does

  lemma {:induction false} ShareUpdate(es: seq<Entry>, i: nat, e: Entry, mac: Mac)
    requires i < |es|
    ensures Share(es[i := e], mac) == Share(es, mac) - (if Owned(es[i], mac) then 1 else 0)
            + (if Owned(e, mac) then 1 else 0)
  {
    var n := |es| - 1;
    if i == n {
      assert es[i := e][..n] == es[..n];
    } else {
      ShareUpdate(es[..n], i, e, mac);
      assert es[i := e][..n] == es[..n][i := e];
    }
  }

  lemma Drop(es: seq<Entry>, i: nat)
    requires Distinct(es) && i < |es| && es[i].valid
    ensures var ds := es[i := es[i].(valid := false)];
            Distinct(ds) && Bindings(ds) == Bindings(es) - {es[i].ip}
  {
    var ds := es[i := es[i].(valid := false)];
    BindingsHold(es);
    var m := Bindings(es) - {es[i].ip};
    forall p | p in m ensures exists j :: 0 <= j < |ds| && ds[j].valid && ds[j].ip == p {
      var j :| 0 <= j < |es| && es[j].valid && es[j].ip == p;
      assert ds[j] == es[j];
    }
    HoldsIsUnique(ds, m);
  }

  lemma Put(es: seq<Entry>, i: nat, e: Entry)
    requires Distinct(es) && i < |es| && !es[i].valid && e.valid && e.ip !in Bindings(es)
    ensures var ds := es[i := e];
            Distinct(ds) && Bindings(ds) == Bindings(es)[e.ip := Binding(e.mac, e.seen)]
  {
    var ds := es[i := e];
    BindingsHold(es);
    var m := Bindings(es)[e.ip := Binding(e.mac, e.seen)];
    forall p | p in m ensures exists j :: 0 <= j < |ds| && ds[j].valid && ds[j].ip == p {
      if p == e.ip {
        assert ds[i].ip == p;
      } else {
        var j :| 0 <= j < |es| && es[j].valid && es[j].ip == p;
        assert ds[j] == es[j];
      }
    }
    HoldsIsUnique(ds, m);
  }

  /** Overwriting a valid slot drops its binding first. */
  lemma Replace(es: seq<Entry>, i: nat, e: Entry)
    requires Distinct(es) && i < |es| && es[i].valid && e.valid
    requires e.ip in Bindings(es) ==> e.ip == es[i].ip
    ensures var ds := es[i := e];
            Distinct(ds) && Bindings(ds) == (Bindings(es) - {es[i].ip})[e.ip := Binding(e.mac, e.seen)]
  {
    Drop(es, i);
    var mid := es[i := es[i].(valid := false)];
    Put(mid, i, e);
    assert mid[i := e] == es[i := e];
  }

  // ----- expiry

  function Aged(e: Entry, now: nat): Entry {
    e.(valid := e.valid && Since(now, e.seen) < TTL)
  }

  function Expired(es: seq<Entry>, now: nat): (ds: seq<Entry>)
    ensures |ds| == |es| && forall i :: 0 <= i < |es| ==> ds[i] == Aged(es[i], now)
  {
    seq(|es|, i requires 0 <= i < |es| => Aged(es[i], now))
  }

  /** The unexpired part of a table of bindings. */
  function LiveOf(m: map<Ip, Binding>, now: nat): map<Ip, Binding> {
    map p | p in m && now - m[p].seen < 600000 :: m[p]
  }

  lemma {:induction false} ShareShrinks(es: seq<Entry>, ds: seq<Entry>, mac: Mac)
    requires |es| == |ds|
    requires forall i :: 0 <= i < |es| && Owned(ds[i], mac) ==> Owned(es[i], mac)
    ensures Share(ds, mac) <= Share(es, mac)
  {
    if es != [] {
      var n := |es| - 1;
      assert Owned(ds[n], mac) ==> Owned(es[n], mac);
      forall i | 0 <= i < n && Owned(ds[..n][i], mac) ensures Owned(es[..n][i], mac) {
        assert Owned(ds[i], mac);
      }
      ShareShrinks(es[..n], ds[..n], mac);
    }
  }

  /** Ages of past observations do not wrap. */
  lemma AgeIsElapsed(now: nat, seen: nat)
    requires seen <= now < WORD64
    ensures Since(now, seen) == now - seen
  {
  }

  lemma ExpiryHolds(es: seq<Entry>, now: nat)
    requires Distinct(es) && Past(es, now)
    ensures Distinct(Expired(es, now)) && Holds(Expired(es, now), LiveOf(Bindings(es), now))
  {
    var ds, m := Expired(es, now), LiveOf(Bindings(es), now);
    BindingsHold(es);
    forall i | 0 <= i < |es| && es[i].valid ensures ds[i].valid <==> now - es[i].seen < TTL {
      AgeIsElapsed(now, es[i].seen);
    }
    forall p | p in m ensures exists j :: 0 <= j < |ds| && ds[j].valid && ds[j].ip == p {
      var j :| 0 <= j < |es| && es[j].valid && es[j].ip == p;
      assert ds[j] == es[j];
    }
  }

  /** Expiry removes exactly the bindings that reached their time to live. */
  lemma ExpiryEffect(es: seq<Entry>, now: nat)
    requires TableInv(es) && Past(es, now)
    ensures TableInv(Expired(es, now)) && Past(Expired(es, now), now)
    ensures Bindings(Expired(es, now)) == LiveOf(Bindings(es), now)
  {
    var ds := Expired(es, now);
    forall mac ensures Share(ds, mac) <= PER_MAC {
      ShareShrinks(es, ds, mac);
    }
    ExpiryHolds(es, now);
    HoldsIsUnique(ds, LiveOf(Bindings(es), now));
  }

  // ----- one observation as a map update

  /** v is a binding of this MAC that was seen no later than its others. */
  ghost predicate OldestOwn(m: map<Ip, Binding>, mac: Mac, v: Ip) {
    v in m && m[v].mac == mac && forall p :: p in m && m[p].mac == mac ==> m[v].seen <= m[p].seen
  }

  ghost predicate OldestOfAll(m: map<Ip, Binding>, v: Ip) {
    v in m && forall p :: p in m ==> m[v].seen <= m[p].seen
  }

  /** Addresses a map binds to this MAC. */
  ghost function Addresses(m: map<Ip, Binding>, mac: Mac): set<Ip> {
    set p | p in m && m[p].mac == mac
  }

  /** The observation of (mac, ip) turns the live bindings m into k. A MAC that already has four other
      addresses gives up its own oldest. Otherwise only a full table gives up a binding, its oldest. */
  ghost predicate Observed(m: map<Ip, Binding>, k: map<Ip, Binding>, mac: Mac, ip: Ip, now: nat) {
    var bound := Binding(mac, now);
    if |Addresses(m, mac) - {ip}| >= 4 then
      exists v :: OldestOwn(m, mac, v) && v != ip && k == (m - {v})[ip := bound]
    else if ip !in m && |m| == 128 then
      exists v :: OldestOfAll(m, v) && k == (m - {v})[ip := bound]
    else
      k == m[ip := bound]
  }

  /** Nothing but the observed address changes, save for at most one loss, and the loser is either the
      oldest address of a MAC that has four others or the oldest of a full table. */
  lemma WhoIsEvicted(m: map<Ip, Binding>, k: map<Ip, Binding>, mac: Mac, ip: Ip, now: nat, p: Ip, q: Ip)
    requires Observed(m, k, mac, ip, now) && p in m && p != ip && p !in k
    ensures ip in k && k[ip] == Binding(mac, now)
    ensures OldestOwn(m, mac, p) || (ip !in m && |m| == 128 && OldestOfAll(m, p))
    ensures q != p && q != ip ==> (q in k <==> q in m) && (q in m ==> k[q] == m[q])
  {
  }

  lemma {:induction false} ShareIsAddresses(es: seq<Entry>, mac: Mac)
    requires Distinct(es)
    ensures |Addresses(Bindings(es), mac)| == Share(es, mac)
  {
    if es == [] {
      assert Addresses(Bindings(es), mac) == {};
    } else {
      var n := |es| - 1;
      var e, m := es[n], Bindings(es[..n]);
      ShareIsAddresses(es[..n], mac);
      if e.valid { LastIsNew(es); }
      assert Addresses(Bindings(es), mac) == Addresses(m, mac) + if Owned(e, mac) then {e.ip} else {};
    }
  }

  /** How many other addresses a MAC holds, read off the entries. */
  lemma OthersOf(es: seq<Entry>, mac: Mac, ip: Ip)
    requires TableInv(es)
    ensures var m := Bindings(es);
            |Addresses(m, mac) - {ip}| >= PER_MAC <==> Share(es, mac) >= PER_MAC && (ip in m ==> m[ip].mac != mac)
  {
    var m := Bindings(es);
    ShareIsAddresses(es, mac);
    if ip in m && m[ip].mac == mac {
      assert |Addresses(m, mac) - {ip}| == |Addresses(m, mac)| - 1;
    } else {
      assert Addresses(m, mac) - {ip} == Addresses(m, mac);
    }
  }

  /** slot is unused, or every slot is used and it is the oldest. */
  ghost predicate Spare(es: seq<Entry>, slot: nat) {
    slot < |es| && (!es[slot].valid || forall k :: 0 <= k < |es| ==> es[k].valid && es[slot].seen <= es[k].seen)
  }

  ghost predicate OldestSlot(es: seq<Entry>, mac: Mac, slot: nat) {
    && slot < |es| && Owned(es[slot], mac)
    && forall k :: 0 <= k < |es| && Owned(es[k], mac) ==> es[slot].seen <= es[k].seen
  }

  /** Looking at one more entry: an unused slot, or else an older one, becomes the spare. */
  lemma SpareGrows(es: seq<Entry>, i: nat, slot: nat)
    requires i < |es| && if i == 0 then slot == 0 else Spare(es[..i], slot)
    ensures Spare(es[..i + 1], if !es[i].valid || (es[slot].valid && es[i].seen < es[slot].seen) then i else slot)
  {
    assert forall k :: 0 <= k < i ==> es[..i][k] == es[k];
  }

  /** Likewise for the MAC's oldest entry; before the first there is none. */
  lemma OldestGrows(es: seq<Entry>, mac: Mac, i: nat, same: nat, oldest: nat)
    requires i < |es| && same == Share(es[..i], mac)
    requires if same == 0 then forall k :: 0 <= k < i ==> !Owned(es[k], mac) else OldestSlot(es[..i], mac, oldest)
    ensures Share(es[..i + 1], mac) == same + if Owned(es[i], mac) then 1 else 0
    ensures Owned(es[i], mac) ==>
              OldestSlot(es[..i + 1], mac, if same == 0 || es[i].seen < es[oldest].seen then i else oldest)
    ensures same > 0 && !Owned(es[i], mac) ==> OldestSlot(es[..i + 1], mac, oldest)
  {
    assert es[..i + 1][..i] == es[..i];
    assert forall k :: 0 <= k < i ==> es[..i][k] == es[k];
  }

  lemma OldestSlotIsOwn(es: seq<Entry>, mac: Mac, o: nat)
    requires Distinct(es) && OldestSlot(es, mac, o)
    ensures OldestOwn(Bindings(es), mac, es[o].ip)
  {
    BindingsHold(es);
    var m := Bindings(es);
    forall p | p in m && m[p].mac == mac ensures m[es[o].ip].seen <= m[p].seen {
      var i :| 0 <= i < |es| && es[i].valid && es[i].ip == p;
      assert Owned(es[i], mac);
    }
  }

  lemma SpareSlotIsOldest(es: seq<Entry>, o: nat)
    requires Distinct(es) && Spare(es, o) && es[o].valid
    ensures OldestOfAll(Bindings(es), es[o].ip)
  {
    BindingsHold(es);
    var m := Bindings(es);
    forall p | p in m ensures m[es[o].ip].seen <= m[p].seen {
      var i :| 0 <= i < |es| && es[i].valid && es[i].ip == p;
      assert es[i].valid;
    }
  }

  /** Writing e keeps every share within bounds when its own MAC has room for it. */
  lemma FairAfter(es: seq<Entry>, i: nat, e: Entry)
    requires Fair(es) && i < |es| && (Share(es, e.mac) < PER_MAC || Owned(es[i], e.mac))
    ensures Fair(es[i := e])
  {
    var ds := es[i := e];
    forall mac ensures Share(ds, mac) <= PER_MAC {
      ShareUpdate(es, i, e, mac);
    }
  }

  /** Giving up the oldest address of a MAC makes room for one more. */
  lemma GiveUpOldest(es: seq<Entry>, mac: Mac, o: nat)
    requires TableInv(es) && OldestSlot(es, mac, o)
    ensures var mid := es[o := es[o].(valid := false)];
            TableInv(mid) && Bindings(mid) == Bindings(es) - {es[o].ip} && Share(mid, mac) < PER_MAC
  {
    var mid := es[o := es[o].(valid := false)];
    Drop(es, o);
    forall m ensures Share(mid, m) == Share(es, m) - if m == mac then 1 else 0 {
      ShareUpdate(es, o, mid[o], m);
    }
  }

  /** A known address is refreshed in its own slot. */
  lemma Refresh(es: seq<Entry>, e: Entry, at: nat)
    requires TableInv(es) && e.valid && at < |es| && es[at].valid && es[at].ip == e.ip
    requires Share(es, e.mac) < PER_MAC || es[at].mac == e.mac
    ensures TableInv(es[at := e]) && Bindings(es[at := e]) == Bindings(es)[e.ip := Binding(e.mac, e.seen)]
  {
    var m := Bindings(es);
    Replace(es, at, e);
    FairAfter(es, at, e);
    assert (m - {e.ip})[e.ip := Binding(e.mac, e.seen)] == m[e.ip := Binding(e.mac, e.seen)];
  }

  /** The address is known: its slot is refreshed, after the new owner gave up its oldest if it must. */
  lemma KnownAddress(es: seq<Entry>, e: Entry, at: nat, o: nat)
    requires TableInv(es) && e.valid && at < |es| && es[at].valid && es[at].ip == e.ip
    requires Share(es, e.mac) > 0 ==> OldestSlot(es, e.mac, o)
    ensures var evict := Share(es, e.mac) >= PER_MAC && es[at].mac != e.mac;
            var mid := if evict then es[o := es[o].(valid := false)] else es;
            TableInv(mid[at := e]) && Observed(Bindings(es), Bindings(mid[at := e]), e.mac, e.ip, e.seen)
  {
    BindingsHold(es);
    OthersOf(es, e.mac, e.ip);
    if Share(es, e.mac) >= PER_MAC && es[at].mac != e.mac {
      OldestSlotIsOwn(es, e.mac, o);
      GiveUpOldest(es, e.mac, o);
      Refresh(es[o := es[o].(valid := false)], e, at);
    } else {
      Refresh(es, e, at);
    }
  }

  /** The address is new: it takes the MAC's oldest slot, an unused one, or the oldest of all. */
  lemma NewAddress(es: seq<Entry>, e: Entry, slot: nat, o: nat)
    requires TableInv(es) && e.valid && e.ip !in Bindings(es)
    requires Share(es, e.mac) > 0 ==> OldestSlot(es, e.mac, o)
    requires Spare(es, slot)
    ensures var at := if Share(es, e.mac) >= PER_MAC then o else slot;
            TableInv(es[at := e]) && Observed(Bindings(es), Bindings(es[at := e]), e.mac, e.ip, e.seen)
  {
    var m := Bindings(es);
    var at := if Share(es, e.mac) >= PER_MAC then o else slot;
    BindingsHold(es);
    OthersOf(es, e.mac, e.ip);
    SizeOfBindings(es);
    AllValidAt(es);
    FairAfter(es, at, e);
    if es[at].valid { Replace(es, at, e); } else { Put(es, at, e); }
    if Share(es, e.mac) >= PER_MAC {
      OldestSlotIsOwn(es, e.mac, o);
    } else if es[slot].valid {
      SpareSlotIsOldest(es, slot);
    }
  }

  // ----- lookup

  predicate Answers(e: Entry, mac: Mac, now: nat) { Owned(e, mac) && Since(now, e.seen) < TTL }

  function Found(es: seq<Entry>, mac: Mac, now: nat): (out: seq<Observation>)
    ensures |out| <= Share(es, mac)
  {
    if es == [] then []
    else
      var e := es[|es| - 1];
      Found(es[..|es| - 1], mac, now) + if Answers(e, mac, now) then [Observation(e.ip, Since(now, e.seen))] else []
  }

  lemma {:induction false} FoundGrows(es: seq<Entry>, i: nat, mac: Mac, now: nat)
    requires i <= |es|
    ensures Found(es[..i], mac, now) <= Found(es, mac, now)
  {
    if i == |es| {
      assert es[..i] == es;
    } else {
      var n := |es| - 1;
      FoundGrows(es[..n], i, mac, now);
      assert es[..n][..i] == es[..i];
    }
  }

  ghost predicate Listed(es: seq<Entry>, mac: Mac, now: nat, o: Observation) {
    exists i :: 0 <= i < |es| && Answers(es[i], mac, now) && o == Observation(es[i].ip, Since(now, es[i].seen))
  }

  lemma {:induction false} FoundIsListed(es: seq<Entry>, mac: Mac, now: nat, o: Observation)
    ensures o in Found(es, mac, now) <==> Listed(es, mac, now, o)
  {
    if es != [] {
      var n := |es| - 1;
      FoundIsListed(es[..n], mac, now, o);
      if Listed(es[..n], mac, now, o) {
        var i :| 0 <= i < n && Answers(es[..n][i], mac, now)
          && o == Observation(es[..n][i].ip, Since(now, es[..n][i].seen));
        assert Answers(es[i], mac, now);
      }
      if Listed(es, mac, now, o) {
        var i :| 0 <= i < |es| && Answers(es[i], mac, now) && o == Observation(es[i].ip, Since(now, es[i].seen));
        if i < n { assert Answers(es[..n][i], mac, now); }
      }
    }
  }

  lemma {:induction false} FoundIsDistinct(es: seq<Entry>, mac: Mac, now: nat, i: nat, j: nat)
    requires Distinct(es) && i < j < |Found(es, mac, now)|
    ensures Found(es, mac, now)[i].ip != Found(es, mac, now)[j].ip
  {
    var n := |es| - 1;
    var out := Found(es[..n], mac, now);
    if j < |out| {
      FoundIsDistinct(es[..n], mac, now, i, j);
    } else {
      FoundIsListed(es[..n], mac, now, out[i]);
      var k :| 0 <= k < n && Answers(es[..n][k], mac, now)
        && out[i] == Observation(es[..n][k].ip, Since(now, es[..n][k].seen));
      assert es[k].valid && es[n].valid && es[k].ip == out[i].ip;
    }
  }

  /** A clock sample no earlier than the table lists every live binding of the MAC, with its age, and
      nothing else. */
  lemma FoundIsLive(es: seq<Entry>, mac: Mac, now: nat, o: Observation)
    requires TableInv(es) && Past(es, now)
    ensures var m := LiveOf(Bindings(es), now);
            o in Found(es, mac, now) <==> o.ip in m && m[o.ip].mac == mac && o.age == now - m[o.ip].seen
  {
    FoundIsListed(es, mac, now, o);
    BindingsHold(es);
    forall i | 0 <= i < |es| && es[i].valid ensures Since(now, es[i].seen) == now - es[i].seen {
      AgeIsElapsed(now, es[i].seen);
    }
    var m := LiveOf(Bindings(es), now);
    if o.ip in m && m[o.ip].mac == mac && o.age == now - m[o.ip].seen {
      var i :| 0 <= i < |es| && es[i].valid && es[i].ip == o.ip;
      assert Answers(es[i], mac, now);
    }
  }

  /** A lookup that sampled its clock before a later observation skips that observation, unless the
      sample is almost a whole 64-bit period old. */
  lemma EarlySampleMisses(e: Entry, mac: Mac, now: nat)
    requires Owned(e, mac) && now < e.seen < WORD64
    ensures Answers(e, mac, now) <==> e.seen - now > WORD64 - TTL
  {
    assert Since(now, e.seen) == now - e.seen + WORD64;
  }

  ghost predicate ListsAddress(out: seq<Observation>, p: Ip) {
    exists o :: o in out && o.ip == p
  }

  /** An address is listed exactly when its own entry answers. */
  lemma ListedByOwnEntry(es: seq<Entry>, mac: Mac, now: nat, i: nat)
    requires Distinct(es) && i < |es| && Owned(es[i], mac)
    ensures ListsAddress(Found(es, mac, now), es[i].ip) <==> Answers(es[i], mac, now)
  {
    var out := Found(es, mac, now);
    if Answers(es[i], mac, now) {
      var o := Observation(es[i].ip, Since(now, es[i].seen));
      assert Listed(es, mac, now, o);
      FoundIsListed(es, mac, now, o);
    }
    if ListsAddress(out, es[i].ip) {
      var w :| w in out && w.ip == es[i].ip;
      FoundIsListed(es, mac, now, w);
      var k :| 0 <= k < |es| && Answers(es[k], mac, now) && w == Observation(es[k].ip, Since(now, es[k].seen));
      assert i == k;
    }
  }

  /** Which of the MAC's bindings a lookup lists, whatever its sample: those not yet expired at the sample,
      and those from after it by almost a whole 64-bit period. */
  lemma ListedIff(es: seq<Entry>, mac: Mac, now: nat, t: nat, p: Ip)
    requires TableInv(es) && Past(es, t) && now < WORD64 && p in Bindings(es) && Bindings(es)[p].mac == mac
    ensures var seen := Bindings(es)[p].seen;
            ListsAddress(Found(es, mac, now), p) <==>
              if seen <= now then now - seen < 600000 else seen - now > 0x1_0000_0000_0000_0000 - 600000
  {
    BindingsHold(es);
    var i :| 0 <= i < |es| && es[i].valid && es[i].ip == p;
    ListedByOwnEntry(es, mac, now, i);
    if es[i].seen <= now { AgeIsElapsed(now, es[i].seen); } else { EarlySampleMisses(es[i], mac, now); }
  }

  /** The binding was made after the lookup sampled its clock. */
  predicate Missed(b: Binding, now: nat) { now < b.seen <= now + (0x1_0000_0000_0000_0000 - 600000) }

  /** A lookup that sampled its clock at now and reads the table at t lists every binding of the MAC that
      is live at t if and only if none of them was made after the sample. */
  lemma LookupIsCompleteIff(es: seq<Entry>, mac: Mac, now: nat, t: nat)
    requires TableInv(es) && Past(es, t) && now <= t
    ensures var m := LiveOf(Bindings(es), t);
            (forall p :: p in m && m[p].mac == mac ==> ListsAddress(Found(es, mac, now), p)) <==>
            (forall p :: p in m && m[p].mac == mac ==> !Missed(m[p], now))
  {
    var m := LiveOf(Bindings(es), t);
    BindingsHold(es);
    forall p | p in m && m[p].mac == mac ensures ListsAddress(Found(es, mac, now), p) <==> !Missed(m[p], now) {
      ListedIff(es, mac, now, t, p);
      var i :| 0 <= i < |es| && es[i].valid && es[i].ip == p;
      assert m[p].seen <= t;
    }
  }

  // ----- ARP frames

  datatype Arp = Ignored | Sender(mac: Mac, ip: Ip)

  function MacAt(f: Bytes, i: nat): Mac
    requires i + 6 <= |f|
  {
    Mac(f[i], f[i + 1], f[i + 2], f[i + 3], f[i + 4], f[i + 5])
  }

  /** The sender of an untagged Ethernet/IPv4 ARP request or reply. */
  function ParseArp(f: Bytes): Arp {
    if |f| < 42 || f[12..21] != [8, 6, 0, 1, 8, 0, 6, 4, 0] || (f[21] != 1 && f[21] != 2) || f[22] % 2 == 1
       || MacAt(f, 22) == Mac(0, 0, 0, 0, 0, 0) || MacAt(f, 6) != MacAt(f, 22)
       || f[28] == 0 || f[28] == 127 || f[28] >= 224
    then Ignored
    else Sender(MacAt(f, 22), Ip(f[28], f[29], f[30], f[31]))
  }

  function Bytes6(m: Mac): (b: Bytes)
    ensures |b| == 6
  {
    [m.a, m.b, m.c, m.d, m.e, m.f]
  }

  /** An Ethernet/IPv4 ARP packet, a request (1) or a reply (2), from a host to any destination and target. */
  function ArpFrame(to: Bytes, mac: Mac, operation: Byte, ip: Ip, target: Bytes): (f: Bytes)
    requires |to| == 6 && |target| == 10
    ensures |f| == 42
  {
    to + Bytes6(mac) + [8, 6, 0, 1, 8, 0, 6, 4, 0, operation] + Bytes6(mac) + [ip.a, ip.b, ip.c, ip.d] + target
  }

  /** A hardware address of one host, and an address a host can have. */
  predicate Taken(mac: Mac, operation: Byte, ip: Ip) {
    && operation in {1, 2} && mac.a % 2 == 0 && mac != Mac(0, 0, 0, 0, 0, 0)
    && ip.a != 0 && ip.a != 127 && ip.a < 224
  }

  lemma ParseOfParts(f: Bytes, mac: Mac, operation: Byte, ip: Ip)
    requires |f| >= 42 && Taken(mac, operation, ip)
    requires f[6..12] == Bytes6(mac) && f[12..22] == [8, 6, 0, 1, 8, 0, 6, 4, 0, operation]
    requires f[22..28] == Bytes6(mac) && f[28..32] == [ip.a, ip.b, ip.c, ip.d]
    ensures ParseArp(f) == Sender(mac, ip)
  {
    assert forall i :: 0 <= i < 6 ==> f[6 + i] == f[6..12][i] && f[22 + i] == f[22..28][i];
    assert forall i :: 0 <= i < 4 ==> f[28 + i] == f[28..32][i];
    assert f[12..21] == f[12..22][..9] && f[21] == f[12..22][9];
  }

  /** Such a packet is taken from every sender, whatever follows it in the frame. */
  lemma ParseOfArpFrame(to: Bytes, mac: Mac, operation: Byte, ip: Ip, target: Bytes, rest: Bytes)
    requires |to| == 6 && |target| == 10 && Taken(mac, operation, ip)
    ensures ParseArp(ArpFrame(to, mac, operation, ip, target) + rest) == Sender(mac, ip)
  {
    ParseOfParts(ArpFrame(to, mac, operation, ip, target) + rest, mac, operation, ip);
  }

  /** And nothing else is: every frame that is not ignored begins with such a packet from its sender. */
  lemma OnlyArpFrames(f: Bytes)
    requires ParseArp(f).Sender?
    ensures |f| >= 42 && Taken(ParseArp(f).mac, f[21], ParseArp(f).ip)
    ensures f[..42] == ArpFrame(f[..6], ParseArp(f).mac, f[21], ParseArp(f).ip, f[32..42])
  {
    var mac, ip := ParseArp(f).mac, ParseArp(f).ip;
    assert MacAt(f, 6) == mac;
    assert f[..42] == f[..6] + f[6..12] + (f[12..21] + [f[21]]) + f[22..28] + f[28..32] + f[32..42];
    assert f[6..12] == Bytes6(mac) && f[22..28] == Bytes6(mac) && f[28..32] == [ip.a, ip.b, ip.c, ip.d];
    assert f[12..21] + [f[21]] == [8, 6, 0, 1, 8, 0, 6, 4, 0, f[21]];
  }

  // ----- the table in place

  class Table {
    const entries: array<Entry>

    ghost predicate Valid()
      reads this, entries
    {
      entries.Length == CAPACITY && TableInv(entries[..])
    }

    constructor ()
      ensures Valid() && fresh(entries) && Bindings(entries[..]) == map[] && Past(entries[..], 0)
    {
      entries := new Entry[CAPACITY](_ => Entry(Mac(0, 0, 0, 0, 0, 0), Ip(0, 0, 0, 0), 0, false));
      new;
      NothingValid(entries[..]);
    }

    /** Expires old entries and picks the slot to reuse and the MAC's oldest one. */
    method Scan(mac: Mac, now: nat) returns (slot: nat, same: nat, oldest: nat)
      requires entries.Length == CAPACITY
      modifies entries
      ensures entries[..] == Expired(old(entries[..]), now)
      ensures Spare(entries[..], slot)
      ensures same == Share(entries[..], mac)
      ensures same > 0 ==> OldestSlot(entries[..], mac, oldest)
    {
      ghost var before := entries[..];
      ghost var after := Expired(before, now);
      slot, same, oldest := 0, 0, 0;
      for i := 0 to CAPACITY
        invariant forall k :: 0 <= k < CAPACITY ==> entries[k] == if k < i then after[k] else before[k]
        invariant if i == 0 then slot == 0 else Spare(after[..i], slot)
        invariant same == Share(after[..i], mac)
        invariant same == 0 ==> forall k :: 0 <= k < i ==> !Owned(after[k], mac)
        invariant same > 0 ==> OldestSlot(after[..i], mac, oldest)
      {
        if entries[i].valid && Since(now, entries[i].seen) >= TTL {
          entries[i] := entries[i].(valid := false);
        }
        assert entries[i] == after[i];
        SpareGrows(after, i, slot);
        OldestGrows(after, mac, i, same, oldest);
        if !entries[i].valid || (entries[slot].valid && entries[i].seen < entries[slot].seen) {
          slot := i;
        }
        if entries[i].valid && entries[i].mac == mac {
          if same == 0 || entries[i].seen < entries[oldest].seen {
            oldest := i;
          }
          same := same + 1;
        }
      }
      assert entries[..] == after;
      assert after[..CAPACITY] == after;
    }

    /** The slot that holds an address, or CAPACITY. */
    method Locate(ip: Ip) returns (i: nat)
      requires Valid()
      ensures i <= CAPACITY
      ensures i < CAPACITY ==> entries[i].valid && entries[i].ip == ip
      ensures i == CAPACITY <==> ip !in Bindings(entries[..])
    {
      ghost var es := entries[..];
      i := 0;
      while i < CAPACITY && !(entries[i].valid && entries[i].ip == ip)
        invariant i <= CAPACITY
        invariant forall k :: 0 <= k < i ==> !(es[k].valid && es[k].ip == ip)
      {
        i := i + 1;
      }
      BindingsHold(es);
      assert i < CAPACITY ==> es[i].valid && es[i].ip == ip;
    }

    /** Stores a sender in a table that has just been expired. */
    method Record(mac: Mac, ip: Ip, now: nat, spare: nat, same: nat, oldest: nat)
      requires Valid() && same == Share(entries[..], mac) && Spare(entries[..], spare)
      requires same > 0 ==> OldestSlot(entries[..], mac, oldest)
      modifies entries
      ensures Valid() && Observed(Bindings(old(entries[..])), Bindings(entries[..]), mac, ip, now)
      ensures forall k :: 0 <= k < CAPACITY && entries[k].valid ==>
                entries[k].seen == now || entries[k] == old(entries[k])
    {
      ghost var es := entries[..];
      var e := Entry(mac, ip, now, true);
      var at := Locate(ip);
      if at == CAPACITY {
        NewAddress(es, e, spare, oldest);
        at := if same >= PER_MAC then oldest else spare;
      } else {
        KnownAddress(es, e, at, oldest);
        if same >= PER_MAC && entries[at].mac != mac {
          entries[oldest] := entries[oldest].(valid := false);
          assert entries[..] == es[oldest := es[oldest].(valid := false)];
        }
      }
      ghost var mid := entries[..];
      entries[at] := e;
      assert entries[..] == mid[at := e];
    }

    method Observe(f: Bytes, now: nat)
      requires Valid() && Past(entries[..], now)
      modifies entries
      ensures Valid() && Past(entries[..], now)
      ensures match ParseArp(f)
              case Ignored => entries[..] == old(entries[..])
              case Sender(mac, ip) =>
                Observed(LiveOf(Bindings(old(entries[..])), now), Bindings(entries[..]), mac, ip, now)
    {
      match ParseArp(f)
      case Ignored =>
      case Sender(mac, ip) =>
        ExpiryEffect(entries[..], now);
        var spare, same, oldest := Scan(mac, now);
        Record(mac, ip, now, spare, same, oldest);
    }

    /** The source stops after four answers; no MAC ever has more. */
    method Lookup(mac: Mac, now: nat) returns (out: seq<Observation>)
      requires Valid()
      ensures out == Found(entries[..], mac, now) && |out| <= 4
    {
      out := [];
      var i := 0;
      ghost var es := entries[..];
      while i < CAPACITY && |out| < PER_MAC
        invariant i <= CAPACITY && out == Found(es[..i], mac, now)
      {
        assert es[..i + 1][..i] == es[..i];
        var age := Since(now, entries[i].seen);
        if entries[i].valid && age < TTL && entries[i].mac == mac {
          out := out + [Observation(entries[i].ip, age)];
        }
        i := i + 1;
      }
      FoundGrows(es, i, mac, now);
      assert Share(es, mac) <= PER_MAC;
      assert es[..CAPACITY] == es;
    }
  }

  /** An address observed at 5 is missing from a lookup that sampled its clock at 4. */
  method LookupMisses() returns (table: Table, out: seq<Observation>)
    ensures table.Valid() && out == []
    ensures LiveOf(Bindings(table.entries[..]), 5) == map[Ip(10, 0, 1, 140) := Binding(Mac(2, 0, 0, 0, 0, 1), 5)]
  {
    var mac, ip := Mac(2, 0, 0, 0, 0, 1), Ip(10, 0, 1, 140);
    var frame := ArpFrame(Zeros(6), mac, 1, ip, Zeros(10));
    ParseOfArpFrame(Zeros(6), mac, 1, ip, Zeros(10), []);
    assert frame + [] == frame;
    table := new Table();
    table.Observe(frame, 5);
    ghost var es := table.entries[..];
    OnlyBinding(es, mac, ip, 5);
    out := table.Lookup(mac, 4);
    FoundNothing(es, mac, 4);
  }

  lemma OnlyBinding(es: seq<Entry>, mac: Mac, ip: Ip, now: nat)
    requires Distinct(es) && Observed(map[], Bindings(es), mac, ip, now)
    ensures Bindings(es) == map[ip := Binding(mac, now)]
    ensures forall i :: 0 <= i < |es| && es[i].valid ==> es[i].seen == now
  {
    assert Addresses(map[], mac) == {};
    BindingsHold(es);
  }

  lemma {:induction false} FoundNothing(es: seq<Entry>, mac: Mac, now: nat)
    requires forall i :: 0 <= i < |es| ==> !Answers(es[i], mac, now)
    ensures Found(es, mac, now) == []
  {
    if es != [] { FoundNothing(es[..|es| - 1], mac, now); }
  }
}
