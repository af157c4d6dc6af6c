/**
 The object table of the SNMP engine: lexicographic order of identifiers, exact and next
 lookup by linear scan, and the walk that repeated GETNEXT makes over a sorted table.
*/
module SnmpMib {
  import opened Common
  import opened Ber

  const TEXT_MAX: nat := 0xf000
  /** struct snmp_object; text is the bytes before the terminator. */
  datatype Object = Object(oid: Oid, tag: Byte, instanceArcs: nat, number: nat, text: Bytes)

  predicate ObjectOk(x: Object) {
    Legal(x.oid) && x.instanceArcs <= |x.oid| && x.number < WORD64 && |x.text| <= TEXT_MAX
  }

  type Mib = seq<Object>

  // ----- order

  predicate Less(a: Oid, b: Oid)
    decreases |b|
  {
    b != [] && (a == [] || a[0] < b[0] || (a[0] == b[0] && Less(a[1..], b[1..])))
  }

  lemma {:induction false} LessAntisymmetric(a: Oid, b: Oid)
    ensures !(Less(a, b) && Less(b, a)) && !(Less(a, b) && a == b) && (Less(a, b) || Less(b, a) || a == b)
    decreases |b|
  {
    if a != [] && b != [] {
      LessAntisymmetric(a[1..], b[1..]);
      assert a == [a[0]] + a[1..] && b == [b[0]] + b[1..];
    }
  }

  lemma {:induction false} LessTransitive(a: Oid, b: Oid, c: Oid)
    requires Less(a, b) && Less(b, c)
    ensures Less(a, c)
    decreases |c|
  {
    if a != [] && a[0] == b[0] == c[0] { LessTransitive(a[1..], b[1..], c[1..]); }
  }

  /** A first difference, or one being a prefix of the other, decides. */
  lemma {:induction false} LessAt(a: Oid, b: Oid, k: nat)
    requires k <= |a| && k <= |b| && a[..k] == b[..k]
    ensures Less(a, b) == Less(a[k..], b[k..])
    decreases k
  {
    if k > 0 {
      assert a[0] == a[..k][0] == b[..k][0] == b[0];
      assert a[1..][..k-1] == a[..k][1..] && b[1..][..k-1] == b[..k][1..];
      LessAt(a[1..], b[1..], k - 1);
      assert a[1..][k-1..] == a[k..] && b[1..][k-1..] == b[k..];
    } else {
      assert a[0..] == a && b[0..] == b;
    }
  }

  /** The order is that of the first arcs that differ; a name comes before those that extend it. */
  lemma {:induction false} LessIff(a: Oid, b: Oid)
    ensures Less(a, b) <==> a < b || exists k :: 0 <= k < |a| && k < |b| && a[..k] == b[..k] && a[k] < b[k]
  {
    forall k | 0 <= k < |a| && k < |b| && a[..k] == b[..k] && a[k] < b[k] ensures Less(a, b) {
      LessAt(a, b, k);
    }
    if a < b {
      LessAt(a, b, |a|);
    }
    if Less(a, b) {
      var k := Shared(a, b);
      LessAt(a, b, k);
    }
  }

  /** How many leading arcs two names share. */
  function Shared(a: Oid, b: Oid): (k: nat)
    ensures k <= |a| && k <= |b| && a[..k] == b[..k] && (k < |a| && k < |b| ==> a[k] != b[k])
  {
    if a == [] || b == [] || a[0] != b[0] then 0
    else
      var k := Shared(a[1..], b[1..]);
      assert a[..k + 1] == [a[0]] + a[1..][..k] && b[..k + 1] == [b[0]] + b[1..][..k];
      k + 1
  }

  /** compare(): the loop over common arcs, then the lengths. */
  method Compare(a: Oid, b: Oid) returns (r: int)
    ensures r == if a == b then 0 else if Less(a, b) then -1 else 1
  {
    var n := if |a| < |b| then |a| else |b|;
    for i := 0 to n
      invariant a[..i] == b[..i]
    {
      if a[i] != b[i] {
        LessAt(a, b, i);
        return if a[i] < b[i] then -1 else 1;
      }
      assert a[..i+1] == a[..i] + [a[i]] && b[..i+1] == b[..i] + [b[i]];
    }
    LessAt(a, b, n);
    if |a| == |b| { assert a == a[..n] && b == b[..n]; }
    r := if |a| == |b| then 0 else if |a| < |b| then -1 else 1;
  }

  ghost predicate Sorted(m: Mib) {
    forall i, j :: 0 <= i < j < |m| ==> Less(m[i].oid, m[j].oid)
  }

  // ----- lookup

  predicate Matches(x: Object, o: Oid, next: bool) {
    if next then Less(o, x.oid) else x.oid == o
  }

  /** The first object that matches, in table order. */
  function Find(m: Mib, o: Oid, next: bool): (r: Option<nat>)
    ensures r.Some? ==> r.value < |m| && Matches(m[r.value], o, next)
  {
    FindFrom(m, o, next, 0)
  }

  function FindFrom(m: Mib, o: Oid, next: bool, k: nat): (r: Option<nat>)
    requires k <= |m|
    ensures r.Some? ==> k <= r.value < |m| && Matches(m[r.value], o, next)
    decreases |m| - k
  {
    if k == |m| then None else if Matches(m[k], o, next) then Some(k) else FindFrom(m, o, next, k + 1)
  }

  lemma {:induction false} FindFromFirst(m: Mib, o: Oid, next: bool, k: nat)
    requires k <= |m|
    ensures var r := FindFrom(m, o, next, k);
      forall j :: k <= j < (if r.Some? then r.value else |m|) ==> !Matches(m[j], o, next)
    decreases |m| - k
  {
    if k < |m| && !Matches(m[k], o, next) { FindFromFirst(m, o, next, k + 1); }
  }

  /** Nothing before the object found matches. */
  lemma FindIsFirst(m: Mib, o: Oid, next: bool)
    ensures var r := Find(m, o, next);
      forall j :: 0 <= j < (if r.Some? then r.value else |m|) ==> !Matches(m[j], o, next)
  {
    FindFromFirst(m, o, next, 0);
  }

  method Lookup(m: Mib, o: Oid, next: bool) returns (r: Option<nat>)
    ensures r == Find(m, o, next)
  {
    FindIsFirst(m, o, next);
    for i := 0 to |m|
      invariant forall j :: 0 <= j < i ==> !Matches(m[j], o, next)
    {
      var c := Compare(m[i].oid, o);
      LessAntisymmetric(o, m[i].oid);
      if (!next && c == 0) || (next && c > 0) { return Some(i); }
    }
    r := None;
  }

  /** Over a sorted table the next object is the least one above the name asked for. */
  lemma NextIsLeastGreater(m: Mib, o: Oid)
    requires Sorted(m)
    ensures Find(m, o, true).None? <==> forall j :: 0 <= j < |m| ==> !Less(o, m[j].oid)
    ensures Find(m, o, true).Some? ==>
      var x := m[Find(m, o, true).value].oid;
      Less(o, x) && forall j :: 0 <= j < |m| && Less(o, m[j].oid) ==> m[j].oid == x || Less(x, m[j].oid)
  {
    FindIsFirst(m, o, true);
    assert forall j :: 0 <= j < |m| ==> Matches(m[j], o, true) == Less(o, m[j].oid);
  }

  /** An object whose name without its instance is a prefix of o. */
  predicate Covers(x: Object, o: Oid) {
    var base := |x.oid| - x.instanceArcs;
    0 <= base <= |o| && x.oid[..base] == o[..base]
  }

  const NO_SUCH_OBJECT: Byte := 0x80
  const NO_SUCH_INSTANCE: Byte := 0x81
  const END_OF_MIB_VIEW: Byte := 0x82

  function Exception(m: Mib, o: Oid): Byte {
    if AnyCovers(m, o, 0) then NO_SUCH_INSTANCE else NO_SUCH_OBJECT
  }

  predicate AnyCovers(m: Mib, o: Oid, k: nat)
    requires k <= |m|
    decreases |m| - k
  {
    k < |m| && (Covers(m[k], o) || AnyCovers(m, o, k + 1))
  }

  lemma {:induction false} AnyCoversIff(m: Mib, o: Oid, k: nat)
    requires k <= |m|
    ensures AnyCovers(m, o, k) <==> exists i :: k <= i < |m| && Covers(m[i], o)
    decreases |m| - k
  {
    if k < |m| { AnyCoversIff(m, o, k + 1); }
  }

  method Missing(m: Mib, o: Oid) returns (e: Byte)
    requires forall x :: x in m ==> ObjectOk(x)
    ensures e == Exception(m, o)
  {
    AnyCoversIff(m, o, 0);
    for i := 0 to |m|
      invariant forall j :: 0 <= j < i ==> !Covers(m[j], o)
    {
      assert ObjectOk(m[i]);
      var base := |m[i].oid| - m[i].instanceArcs;
      if |o| >= base && m[i].oid[..base] == o[..base] { return NO_SUCH_INSTANCE; }
    }
    e := NO_SUCH_OBJECT;
  }

  // ----- the GETNEXT walk

  /** How many objects are not above o. */
  function Rank(m: Mib, o: Oid): (k: nat)
    ensures k <= |m|
  {
    var r := Find(m, o, true);
    if r.Some? then r.value else |m|
  }

  /** After object i comes object i+1. */
  lemma RankOfObject(m: Mib, i: nat)
    requires Sorted(m) && i < |m|
    ensures Rank(m, m[i].oid) == i + 1
  {
    forall j | 0 <= j < |m| ensures Matches(m[j], m[i].oid, true) <==> i < j {
      LessAntisymmetric(m[i].oid, m[j].oid);
    }
    FindIsFirst(m, m[i].oid, true);
    var k := Rank(m, m[i].oid);
    assert k < |m| ==> Matches(m[k], m[i].oid, true);
    assert i + 1 < |m| ==> Matches(m[i+1], m[i].oid, true);
  }

  /** The objects a manager receives by repeating GETNEXT from o until endOfMibView. */
  function Walk(m: Mib, o: Oid): seq<Object>
    requires Sorted(m)
    decreases |m| - Rank(m, o)
  {
    var k := Rank(m, o);
    if k == |m| then []
    else
      RankOfObject(m, k);
      [m[k]] + Walk(m, m[k].oid)
  }

  /** The walk from any name ends and visits every later object exactly once, in order. */
  lemma {:induction false} WalkVisitsTheRest(m: Mib, o: Oid)
    requires Sorted(m)
    ensures Walk(m, o) == m[Rank(m, o)..]
    ensures forall j :: 0 <= j < |m| ==> (Rank(m, o) <= j <==> Less(o, m[j].oid))
    decreases |m| - Rank(m, o)
  {
    var k := Rank(m, o);
    FindIsFirst(m, o, true);
    assert forall j :: 0 <= j < |m| ==> Matches(m[j], o, true) == Less(o, m[j].oid);
    if k < |m| {
      RankOfObject(m, k);
      WalkVisitsTheRest(m, m[k].oid);
      forall j | k < j < |m| ensures Less(o, m[j].oid) {
        LessTransitive(o, m[k].oid, m[j].oid);
      }
    }
  }
}
