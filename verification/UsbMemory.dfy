/**
 The USB DMA allocator: a first-fit, split/coalesce heap over one arena whose block
 headers and back-pointers live inside the memory it hands out.

 The first half is the value model: a sequence of blocks and what an allocation and a
 release do to it. The second half is the allocator itself, which walks headers stored in
 word memory; each operation is proved to carry out the value model's step.
 Addresses are bytes of the R5: a pointer is 4 bytes and a block header 12.
*/
module UsbMemory {
  import opened Common
  import opened Bits

  const NULL: nat := 0
  const WORD: nat := 4
  const HEADER: nat := 12
  const OVERHEAD: nat := HEADER + WORD   // the header, then the back-pointer below the payload
  const LIMIT: nat := 0x100000           // largest size and largest alignment accepted
  const MIN_TAIL: nat := HEADER + 64
  const ADDRESS_SPACE: nat := WORD32

  datatype Use = Free | Live(payload: nat, request: nat, align: nat)
  datatype Block = Block(addr: nat, size: nat, use: Use) {
    function End(): nat { addr + size }
  }
  type Heap = seq<Block>

  // ----- arithmetic of alignment

  /** x modulo a by repeated subtraction, which keeps the proofs below linear. */
  function Residue(x: nat, a: nat): (r: nat)
    requires a > 0
    ensures r < a && r <= x
  {
    if x < a then x else Residue(x - a, a)
  }

  predicate Aligned(p: nat, align: nat) {
    align > 0 && Residue(p, align) == 0
  }

  /** (x+a-1) with the low bits of a power of two a masked off. */
  function RoundUp(x: nat, a: nat): nat
    requires a > 0
  {
    var y := x + a - 1;
    y - Residue(y, a)
  }

  function WordUp(n: nat): nat {
    var y := n + WORD - 1;
    y - y % WORD
  }

  lemma {:induction false} ResidueIsModulus(x: nat, a: nat)
    requires a > 0
    ensures Residue(x, a) == x % a
  {
    if x >= a {
      ResidueIsModulus(x - a, a);
      var q, r := (x - a) / a, (x - a) % a;
      assert x == a * (q + 1) + r;
      SameQuotient(x, a, q + 1, r);
    }
  }

  lemma {:induction false} ResidueShift(x: nat, a: nat)
    requires a > 0
    ensures Residue(x - Residue(x, a), a) == 0
  {
    if x >= a { ResidueShift(x - a, a); }
  }

  lemma {:induction false} MultiplesApart(p: nat, q: nat, a: nat)
    requires Aligned(p, a) && Aligned(q, a) && q < p
    ensures q + a <= p
  {
    if q >= a { MultiplesApart(p - a, q - a, a); }
  }

  lemma RoundUpIsLeast(x: nat, a: nat)
    requires a > 0
    ensures x <= RoundUp(x, a) < x + a && Aligned(RoundUp(x, a), a)
    ensures forall q: nat :: x <= q && Aligned(q, a) ==> RoundUp(x, a) <= q
  {
    ResidueShift(x + a - 1, a);
    forall q: nat | x <= q && Aligned(q, a)
      ensures RoundUp(x, a) <= q
    {
      if q < RoundUp(x, a) { MultiplesApart(RoundUp(x, a), q, a); }
    }
  }

  lemma PowerIsWordMultiple(a: nat)
    requires IsPowerOfTwo(a) && a >= WORD
    ensures a % WORD == 0
  {
    assert a / 2 > 1 && a / 2 % 2 == 0;
  }

  /** The source masks with the complement of a - 1; for a power of two that is rounding up. */
  lemma RoundUpIsMask(x: nat, a: nat)
    requires IsPowerOfTwo(a) && a <= WORD32 && x + a - 1 < WORD32
    ensures And(x + a - 1, WORD32 - a) == RoundUp(x, a)
  {
    ResidueIsModulus(x + a - 1, a);
    WordOfBits();
    MaskRoundsDown(x + a - 1, a, 32);
  }

  lemma WordUpIsMask(n: nat)
    requires n + WORD - 1 < WORD32
    ensures And(n + WORD - 1, WORD32 - WORD) == WordUp(n)
  {
    WordOfBits();
    MaskRoundsDown(n + WORD - 1, WORD, 32);
  }

  lemma WordOfBits()
    ensures Pow2(32) == WORD32
  {
    assert Pow2(8) == 256;
    assert Pow2(16) == 0x1_0000;
    assert Pow2(24) == 0x100_0000;
  }

  /** The alignment test of the source accepts exactly the powers of two. */
  lemma BadRequestIff(align: nat, size: nat)
    ensures BadRequest(align, size) <==>
            size == 0 || align == 0 || align > 0x100000 || And(align, align - 1) != 0 || size > 0x100000
  {
    if align > 0 { PowerOfTwoIff(align); }
  }

  lemma {:induction false} AlignedIsWordAligned(q: nat, a: nat)
    requires a > 0 && a % WORD == 0 && Aligned(q, a)
    ensures q % WORD == 0
  {
    if q >= a {
      AlignedIsWordAligned(q - a, a);
      WordSum(q - a, a);
    }
  }

  lemma WordSum(x: nat, y: nat)
    requires x % WORD == 0 && y % WORD == 0
    ensures (x + y) % WORD == 0
  {
    assert x + y == WORD * (x / WORD + y / WORD);
  }

  // ----- the value model: one allocation, one release

  predicate BadRequest(align: nat, size: nat) {
    size == 0 || align == 0 || align > LIMIT || !IsPowerOfTwo(align) || size > LIMIT
  }

  function Effective(align: nat): nat {
    if align < WORD then WORD else align
  }

  function PayloadIn(b: Block, align: nat): nat
    requires align > 0
  {
    RoundUp(b.addr + OVERHEAD, align)
  }

  function Need(b: Block, align: nat, size: nat): nat
    requires align > 0
  {
    RoundUpIsLeast(b.addr + OVERHEAD, align);
    WordUp(PayloadIn(b, align) - b.addr + size)
  }

  predicate Fits(b: Block, align: nat, size: nat)
    requires align > 0
  {
    b.use.Free? && Need(b, align, size) <= b.size
  }

  function FirstFit(s: Heap, align: nat, size: nat): (r: Option<nat>)
    requires align > 0
    ensures r.Some? ==> r.value < |s| && Fits(s[r.value], align, size)
    ensures forall j :: 0 <= j < (if r.Some? then r.value else |s|) ==> !Fits(s[j], align, size)
  {
    if s == [] then None
    else if Fits(s[0], align, size) then Some(0)
    else match FirstFit(s[1..], align, size)
      case None => None
      case Some(i) => Some(i + 1)
  }

  lemma {:induction false} FirstFitAt(s: Heap, align: nat, size: nat, i: nat)
    requires align > 0 && i < |s| && Fits(s[i], align, size)
    requires forall j :: 0 <= j < i ==> !Fits(s[j], align, size)
    ensures FirstFit(s, align, size) == Some(i)
  {
    var r := FirstFit(s, align, size);
    assert r.Some? && !(i < r.value);
  }

  lemma FirstFitNone(s: Heap, align: nat, size: nat)
    requires align > 0 && forall j :: 0 <= j < |s| ==> !Fits(s[j], align, size)
    ensures FirstFit(s, align, size) == None
  {}

  /** The block taken by a request, followed by the free tail when that is worth keeping. */
  function Carve(b: Block, align: nat, size: nat): seq<Block>
    requires align > 0 && Fits(b, align, size)
  {
    var need, use := Need(b, align, size), Live(PayloadIn(b, align), size, align);
    if b.size - need >= MIN_TAIL
    then [Block(b.addr, need, use), Block(b.addr + need, b.size - need, Free)]
    else [Block(b.addr, b.size, use)]
  }

  /** usb_memalign on values: the heap afterwards and the pointer returned. */
  function Allocate(s: Heap, align: nat, size: nat): (Heap, nat) {
    if BadRequest(align, size) then (s, NULL)
    else
      var a := Effective(align);
      match FirstFit(s, a, size)
      case None => (s, NULL)
      case Some(i) => (s[..i] + Carve(s[i], a, size) + s[i+1..], PayloadIn(s[i], a))
  }

  predicate BothFree(s: Heap, i: nat) {
    i + 1 < |s| && s[i].use.Free? && s[i+1].use.Free?
  }

  /** The sweep that merges each free block with the free blocks after it. */
  function Coalesce(s: Heap, i: nat): Heap
    requires i <= |s|
    decreases |s| - i
  {
    if i + 1 >= |s| then s
    else if BothFree(s, i) then Coalesce(Merge(s, i), i)
    else Coalesce(s, i + 1)
  }

  function Merge(s: Heap, i: nat): Heap
    requires BothFree(s, i)
  {
    s[..i] + [Block(s[i].addr, s[i].size + s[i+1].size, Free)] + s[i+2..]
  }

  predicate Owns(b: Block, p: nat) {
    b.use.Live? && b.use.payload == p
  }

  predicate IsLive(s: Heap, p: nat) {
    exists i :: 0 <= i < |s| && Owns(s[i], p)
  }

  function Find(s: Heap, p: nat): (i: nat)
    requires IsLive(s, p)
    ensures i < |s| && Owns(s[i], p)
  {
    if Owns(s[0], p) then 0 else 1 + Find(s[1..], p)
  }

  function Freed(s: Heap, i: nat): Heap
    requires i < |s|
  {
    s[i := s[i].(use := Free)]
  }

  /** usb_free on values, of a live pointer. */
  function Release(s: Heap, p: nat): Heap
    requires IsLive(s, p)
  {
    Coalesce(Freed(s, Find(s, p)), 0)
  }

  // ----- the invariant

  predicate BlockOk(b: Block) {
    && b.size >= HEADER && b.size % WORD == 0 && b.addr % WORD == 0
    && (b.use.Live? ==>
      && b.use.request > 0 && b.use.payload % WORD == 0
      && b.addr + OVERHEAD <= b.use.payload
      && b.use.payload + b.use.request <= b.End())
  }

  predicate Tiles(s: Heap, lo: nat, hi: nat) {
    && s != [] && s[0].addr == lo && s[|s|-1].End() == hi
    && forall i {:trigger s[i].End()} :: 0 <= i < |s| - 1 ==> s[i].End() == s[i+1].addr
  }

  predicate Coalesced(s: Heap, upto: int) {
    forall i: nat {:trigger BothFree(s, i)} :: i < upto ==> !BothFree(s, i)
  }

  predicate Sound(s: Heap, lo: nat, hi: nat) {
    Tiles(s, lo, hi) && forall b :: b in s ==> BlockOk(b)
  }

  predicate Invariant(s: Heap, lo: nat, hi: nat) {
    Sound(s, lo, hi) && Coalesced(s, |s|)
  }

  /** A live block is no larger than its request calls for: the payload is as low as the header, the
      back-pointer and the alignment let it be, and less than 76 bytes follow its last word. */
  predicate Snug(b: Block)
    requires b.use.Live?
  {
    && b.addr + 16 <= b.use.payload < b.addr + 16 + b.use.align
    && b.size <= b.use.payload - b.addr + b.use.request + 75
  }

  predicate AllFitted(live: set<Block>) {
    forall b :: b in live && b.use.Live? ==> Aligned(b.use.payload, b.use.align) && Snug(b)
  }

  function Whole(lo: nat, hi: nat): Heap
    requires lo <= hi
  {
    [Block(lo, hi - lo, Free)]
  }

  function LiveBlocks(s: Heap): set<Block> {
    set b | b in s && b.use.Live?
  }

  lemma {:induction false} InOrder(s: Heap, lo: nat, hi: nat, i: nat, j: nat)
    requires Sound(s, lo, hi) && i < j < |s|
    ensures s[i].End() <= s[j].addr
    decreases j
  {
    assert s[j-1].End() == s[j].addr;
    if i < j - 1 { InOrder(s, lo, hi, i, j - 1); }
  }

  lemma Ordered(s: Heap, lo: nat, hi: nat)
    requires Sound(s, lo, hi)
    ensures forall i, j :: 0 <= i < j < |s| ==> s[i].End() <= s[j].addr
    ensures forall i :: 0 <= i < |s| ==> lo <= s[i].addr && s[i].End() <= hi
  {
    forall i, j | 0 <= i < j < |s| ensures s[i].End() <= s[j].addr {
      InOrder(s, lo, hi, i, j);
    }
    forall i | 0 <= i < |s| ensures lo <= s[i].addr && s[i].End() <= hi {
      InArena(s, lo, hi, i);
    }
  }

  lemma InArena(s: Heap, lo: nat, hi: nat, i: nat)
    requires Sound(s, lo, hi) && i < |s|
    ensures lo <= s[i].addr && s[i].End() <= hi
  {
    if i > 0 { InOrder(s, lo, hi, 0, i); }
    if i < |s| - 1 { InOrder(s, lo, hi, i, |s| - 1); }
  }

  // ----- what allocation does

  lemma NeedBounds(b: Block, align: nat, size: nat)
    requires IsPowerOfTwo(align) && align >= WORD
    ensures var p, need := PayloadIn(b, align), Need(b, align, size);
      && b.addr + OVERHEAD <= p && Aligned(p, align) && p % WORD == 0
      && p - b.addr + size <= need && need % WORD == 0
  {
    var p := PayloadIn(b, align);
    RoundUpIsLeast(b.addr + OVERHEAD, align);
    PowerIsWordMultiple(align);
    AlignedIsWordAligned(p, align);
  }

  lemma CarveIsSound(b: Block, align: nat, size: nat)
    requires BlockOk(b) && IsPowerOfTwo(align) && align >= WORD && size > 0
    requires Fits(b, align, size)
    ensures var c := Carve(b, align, size);
      && Tiles(c, b.addr, b.End()) && (forall x :: x in c ==> BlockOk(x))
      && c[0].use == Live(PayloadIn(b, align), size, align)
      && (|c| == 2 ==> c[1].use.Free?)
  {
    NeedBounds(b, align, size);
    var p, need, c := PayloadIn(b, align), Need(b, align, size), Carve(b, align, size);
    SplitIsSound(b, p, need, size, align);
  }

  /** Carve without its arithmetic: any payload and length with these bounds will do. */
  lemma SplitIsSound(b: Block, p: nat, need: nat, size: nat, align: nat)
    requires BlockOk(b) && 0 < size && need <= b.size
    requires b.addr + OVERHEAD <= p && p % WORD == 0
    requires p - b.addr + size <= need && need % WORD == 0
    ensures BlockOk(Block(b.addr, b.size, Live(p, size, align)))
    ensures BlockOk(Block(b.addr, need, Live(p, size, align)))
    ensures b.size - need >= MIN_TAIL ==> BlockOk(Block(b.addr + need, b.size - need, Free))
  {}

  /** What a request takes from free block f: all of it when less than 76 bytes would remain, and otherwise
      the payload rounded up to a word, with the rest left as a free block. */
  predicate TakenFrom(f: Block, b: Block, rest: Heap)
    requires b.use.Live?
  {
    var used := b.use.payload - b.addr + b.use.request;
    && b.addr == f.addr && used <= b.size <= f.size && Snug(b)
    && (b.size < f.size ==>
          && b.size < used + 4 && f.size - b.size >= 76
          && rest == [Block(b.End(), f.size - b.size, Free)])
    && (b.size == f.size ==> rest == [])
  }

  lemma CarveIsSnug(b: Block, align: nat, size: nat)
    requires BlockOk(b) && IsPowerOfTwo(align) && align >= WORD && size > 0 && Fits(b, align, size)
    ensures var c := Carve(b, align, size); c[0].use.Live? && TakenFrom(b, c[0], c[1..])
  {
    NeedBounds(b, align, size);
    RoundUpIsLeast(b.addr + OVERHEAD, align);
    var need := Need(b, align, size);
    assert b.size % WORD == 0 && need % WORD == 0;
    assert need < PayloadIn(b, align) - b.addr + size + 4;
  }

  /** A successful request adds exactly one live block, of the size and alignment asked for,
      leaves every other live block alone and keeps the invariant. */
  lemma AllocateEffect(s: Heap, lo: nat, hi: nat, align: nat, size: nat)
    requires Invariant(s, lo, hi) && 0 < lo
    ensures var (t, p) := Allocate(s, align, size);
      && Invariant(t, lo, hi)
      && (p == NULL ==> t == s)
      && (p != NULL ==> exists b: Block ::
            && b.use == Live(p, size, Effective(align)) && Aligned(p, Effective(align)) && Snug(b) && b !in s
            && LiveBlocks(t) == LiveBlocks(s) + {b})
  {
    var a := Effective(align);
    if !BadRequest(align, size) && FirstFit(s, a, size).Some? {
      var i := FirstFit(s, a, size).value;
      var c := Carve(s[i], a, size);
      var t := s[..i] + c + s[i+1..];
      assert BlockOk(s[i]);
      CarveIsSound(s[i], a, size);
      ReplacedLive(s, c, i);
      assert c[0] !in s by { NotThere(s, lo, hi, i, c[0]); }
      assert Invariant(t, lo, hi) by { AllocateKeeps(s, lo, hi, a, size, i); }
      assert c[0].use == Live(PayloadIn(s[i], a), size, a);
      RoundUpIsLeast(s[i].addr + OVERHEAD, a);
      CarveIsSnug(s[i], a, size);
    }
  }

  lemma ReplacedLive(s: Heap, c: seq<Block>, i: nat)
    requires i < |s| && s[i].use.Free? && 1 <= |c| <= 2 && c[0].use.Live? && (|c| == 2 ==> c[1].use.Free?)
    ensures LiveBlocks(s[..i] + c + s[i+1..]) == LiveBlocks(s) + {c[0]}
  {
    var t := s[..i] + c + s[i+1..];
    forall b | b in LiveBlocks(s) ensures b in t {
      var j :| 0 <= j < |s| && s[j] == b;
      assert b == if j < i then t[j] else t[j - 1 + |c|];
    }
    assert t[i] == c[0];
  }

  lemma NotThere(s: Heap, lo: nat, hi: nat, i: nat, b: Block)
    requires Sound(s, lo, hi) && i < |s| && s[i].addr == b.addr && s[i] != b
    ensures b !in s
  {
    forall j | 0 <= j < |s| ensures s[j] != b {
      assert BlockOk(s[i]) && BlockOk(s[j]);
      if i < j { InOrder(s, lo, hi, i, j); } else if j < i { InOrder(s, lo, hi, j, i); }
    }
  }

  lemma AllocateKeeps(s: Heap, lo: nat, hi: nat, a: nat, size: nat, i: nat)
    requires Invariant(s, lo, hi) && i < |s|
    requires IsPowerOfTwo(a) && a >= WORD && size > 0 && Fits(s[i], a, size)
    ensures Invariant(s[..i] + Carve(s[i], a, size) + s[i+1..], lo, hi)
  {
    var c := Carve(s[i], a, size);
    var t := s[..i] + c + s[i+1..];
    assert BlockOk(s[i]);
    CarveIsSound(s[i], a, size);
    assert !BothFree(s, i);
    forall j | 0 <= j < |t| - 1 ensures t[j].End() == t[j+1].addr && !BothFree(t, j) {
      if j < i {
        assert s[j].End() == s[j+1].addr && !BothFree(s, j);
      } else if j >= i + |c| - 1 {
        var k := j - |c| + 1;
        assert s[k].End() == s[k+1].addr && !BothFree(s, k);
      } else {
        assert c[0].End() == c[1].addr;
      }
    }
  }

  /** A request is refused exactly when it is malformed or no free block has room for it:
      no aligned address above the header and back-pointer leaves the requested bytes. */
  lemma AllocateFailsIff(s: Heap, lo: nat, hi: nat, align: nat, size: nat)
    requires Invariant(s, lo, hi) && 0 < lo
    ensures Allocate(s, align, size).1 == NULL <==>
      (BadRequest(align, size) || forall b, q: nat :: b in s && b.use.Free? ==> !Room(b, Effective(align), size, q))
  {
    if !BadRequest(align, size) {
      var a := Effective(align);
      forall b | b in s && b.use.Free? ensures Fits(b, a, size) <==> exists q: nat :: Room(b, a, size, q) {
        FitsIffRoom(b, a, size);
      }
      var r := FirstFit(s, a, size);
      if r.Some? {
        RoundUpIsLeast(s[r.value].addr + OVERHEAD, a);
      } else {
        forall b | b in s ensures !Fits(b, a, size) {
          var j :| 0 <= j < |s| && s[j] == b;
        }
      }
    }
  }

  predicate Room(b: Block, align: nat, size: nat, q: nat) {
    Aligned(q, align) && b.addr + OVERHEAD <= q && q + size <= b.End()
  }

  lemma FitsIffRoom(b: Block, align: nat, size: nat)
    requires BlockOk(b) && b.use.Free? && align > 0
    ensures Fits(b, align, size) <==> exists q: nat :: Room(b, align, size, q)
  {
    var p := PayloadIn(b, align);
    RoundUpIsLeast(b.addr + OVERHEAD, align);
    if Fits(b, align, size) {
      assert Room(b, align, size, p);
    }
    if q: nat :| Room(b, align, size, q) {
      assert p <= q;
      assert b.size % WORD == 0 && p - b.addr + size <= b.size;
    }
  }

  function FreeBytes(s: Heap): nat {
    if s == [] then 0 else FreeBytes(s[..|s|-1]) + if s[|s|-1].use.Free? then s[|s|-1].size else 0
  }

  function LiveBytes(s: Heap): nat {
    if s == [] then 0 else LiveBytes(s[..|s|-1]) + if s[|s|-1].use.Live? then s[|s|-1].size else 0
  }

  lemma {:induction false} FreeBytesOfConcat(s: Heap, t: Heap)
    ensures FreeBytes(s + t) == FreeBytes(s) + FreeBytes(t)
  {
    if t == [] {
      assert s + t == s;
    } else {
      assert (s + t)[..|s + t| - 1] == s + t[..|t|-1];
      FreeBytesOfConcat(s, t[..|t|-1]);
    }
  }

  /** The free bytes of a heap in which blocks c stand for block i. */
  lemma FreeBytesReplaced(s: Heap, i: nat, c: Heap)
    requires i < |s|
    ensures FreeBytes(s[..i] + c + s[i+1..]) == FreeBytes(s) - FreeBytes([s[i]]) + FreeBytes(c)
  {
    assert s == s[..i] + [s[i]] + s[i+1..];
    FreeBytesOfConcat(s[..i], [s[i]]);
    FreeBytesOfConcat(s[..i] + [s[i]], s[i+1..]);
    FreeBytesOfConcat(s[..i], c);
    FreeBytesOfConcat(s[..i] + c, s[i+1..]);
  }

  /** Every byte of the arena is free or taken. */
  lemma {:induction false} BytesAddUp(s: Heap, lo: nat, hi: nat)
    requires Tiles(s, lo, hi)
    ensures FreeBytes(s) + LiveBytes(s) == hi - lo
  {
    if |s| > 1 {
      var t := s[..|s|-1];
      assert s[|s|-2].End() == s[|s|-1].addr;
      assert Tiles(t, lo, s[|s|-1].addr) by {
        forall i | 0 <= i < |t| - 1 ensures t[i].End() == t[i+1].addr { assert s[i].End() == s[i+1].addr; }
      }
      BytesAddUp(t, lo, s[|s|-1].addr);
    } else {
      assert s[..0] == [];
    }
  }

  /** A successful request takes its block from the lowest free block with room, and only what it needs:
      the free bytes drop by the size of its block, and a rest of 76 bytes or more stays free. */
  lemma AllocateCost(s: Heap, lo: nat, hi: nat, align: nat, size: nat) returns (i: nat, b: Block, rest: Heap)
    requires Invariant(s, lo, hi) && 0 < lo && Allocate(s, align, size).1 != NULL
    ensures i < |s| && s[i].use.Free?
    ensures forall j, q: nat :: 0 <= j < i && s[j].use.Free? ==> !Room(s[j], Effective(align), size, q)
    ensures b.use == Live(Allocate(s, align, size).1, size, if align < 4 then 4 else align)
    ensures TakenFrom(s[i], b, rest) && Allocate(s, align, size).0 == s[..i] + ([b] + rest) + s[i+1..]
    ensures FreeBytes(Allocate(s, align, size).0) == FreeBytes(s) - b.size
  {
    var a := Effective(align);
    i := FirstFit(s, a, size).value;
    var c := Carve(s[i], a, size);
    b, rest := c[0], c[1..];
    assert BlockOk(s[i]);
    CarveIsSnug(s[i], a, size);
    assert c == [b] + rest;
    forall j, q: nat | 0 <= j < i && s[j].use.Free? ensures !Room(s[j], a, size, q) {
      FitsIffRoom(s[j], a, size);
    }
    FreeBytesReplaced(s, i, c);
    TakenBytes(s[i], b, rest);
  }

  lemma TakenBytes(f: Block, b: Block, rest: Heap)
    requires f.use.Free? && b.use.Live? && TakenFrom(f, b, rest)
    ensures FreeBytes([b] + rest) == FreeBytes([f]) - b.size
  {
    FreeBytesOfConcat([b], rest);
  }

  /** Where a successful request put its block. */
  lemma AllocatedAt(s: Heap, lo: nat, hi: nat, align: nat, size: nat) returns (i: nat)
    requires Invariant(s, lo, hi) && 0 < lo
    requires Allocate(s, align, size).1 != NULL
    ensures var (t, p) := Allocate(s, align, size); i < |t| && t[i].use == Live(p, size, Effective(align))
  {
    AllocateEffect(s, lo, hi, align, size);
    var (t, p) := Allocate(s, align, size);
    var b: Block :| b.use == Live(p, size, Effective(align)) && LiveBlocks(t) == LiveBlocks(s) + {b};
    assert b in LiveBlocks(t);
    i :| 0 <= i < |t| && t[i] == b;
  }

  lemma ProductFits(count: nat, size: nat)
    ensures CallocOverflows(count, size) <==> count * size >= 0x1_0000_0000
  {
    if size > 0 {
      var q := (ADDRESS_SPACE - 1) / size;
      MulSign(size, count - q);
      assert size * (count - q) == count * size - size * q;
    }
  }

  // ----- what a release does

  lemma {:induction false} CoalesceEffect(s: Heap, lo: nat, hi: nat, i: nat)
    requires Sound(s, lo, hi) && i <= |s| && Coalesced(s, i)
    ensures Invariant(Coalesce(s, i), lo, hi)
    ensures LiveBlocks(Coalesce(s, i)) == LiveBlocks(s)
    decreases |s| - i
  {
    if i + 1 >= |s| {
    } else if BothFree(s, i) {
      MergeEffect(s, lo, hi, i);
      CoalesceEffect(Merge(s, i), lo, hi, i);
    } else {
      CoalesceEffect(s, lo, hi, i + 1);
    }
  }

  lemma MergeEffect(s: Heap, lo: nat, hi: nat, i: nat)
    requires Sound(s, lo, hi) && BothFree(s, i) && Coalesced(s, i)
    ensures var t := Merge(s, i);
      Sound(t, lo, hi) && Coalesced(t, i) && LiveBlocks(t) == LiveBlocks(s)
  {
    var t := Merge(s, i);
    assert s[i].End() == s[i+1].addr && BlockOk(s[i]) && BlockOk(s[i+1]);
    WordSum(s[i].size, s[i+1].size);
    assert BlockOk(t[i]);
    forall j | 0 <= j < |t| - 1 ensures t[j].End() == t[j+1].addr {
      if j < i { assert s[j].End() == s[j+1].addr; }
      else { assert s[j+1].End() == s[j+2].addr; }
    }
    forall j: nat | j < i ensures !BothFree(t, j) { assert !BothFree(s, j); }
    MergeLive(s, i);
  }

  lemma MergeLive(s: Heap, i: nat)
    requires BothFree(s, i)
    ensures LiveBlocks(Merge(s, i)) == LiveBlocks(s)
  {
    var t := Merge(s, i);
    forall b | b in LiveBlocks(s) ensures b in t {
      var j :| 0 <= j < |s| && s[j] == b;
      assert b == if j < i then t[j] else t[j-1];
    }
  }

  lemma {:induction false} CoalesceKeepsFree(s: Heap, i: nat)
    requires i <= |s|
    ensures FreeBytes(Coalesce(s, i)) == FreeBytes(s)
    decreases |s| - i
  {
    if i + 1 >= |s| {
    } else if BothFree(s, i) {
      var m := [Block(s[i].addr, s[i].size + s[i+1].size, Free)];
      assert s[i..i+2] == [s[i]] + [s[i+1]] && s == s[..i] + s[i..i+2] + s[i+2..];
      FreeBytesOfConcat([s[i]], [s[i+1]]);
      FreeBytesOfConcat(s[..i], s[i..i+2]);
      FreeBytesOfConcat(s[..i] + s[i..i+2], s[i+2..]);
      FreeBytesOfConcat(s[..i], m);
      FreeBytesOfConcat(s[..i] + m, s[i+2..]);
      CoalesceKeepsFree(Merge(s, i), i);
    } else {
      CoalesceKeepsFree(s, i + 1);
    }
  }

  /** A release gives back the bytes of its block. */
  lemma ReleaseRefunds(s: Heap, p: nat)
    requires IsLive(s, p)
    ensures FreeBytes(Release(s, p)) == FreeBytes(s) + s[Find(s, p)].size
  {
    var k := Find(s, p);
    var b := s[k].(use := Free);
    assert Freed(s, k) == s[..k] + [b] + s[k+1..];
    FreeBytesReplaced(s, k, [b]);
    assert FreeBytes([s[k]]) == 0 && FreeBytes([b]) == b.size;
    CoalesceKeepsFree(Freed(s, k), 0);
  }

  /** Two live blocks never return the same pointer, so a pointer names its block. */
  lemma OwnerIsUnique(s: Heap, lo: nat, hi: nat, i: nat, j: nat, p: nat)
    requires Sound(s, lo, hi) && i < |s| && j < |s| && Owns(s[i], p) && Owns(s[j], p)
    ensures i == j
  {
    Ordered(s, lo, hi);
    assert BlockOk(s[i]) && BlockOk(s[j]);
  }

  /** Releasing a live pointer removes exactly its block from the live ones and keeps the invariant. */
  lemma ReleaseEffect(s: Heap, lo: nat, hi: nat, p: nat)
    requires Invariant(s, lo, hi) && IsLive(s, p)
    ensures Invariant(Release(s, p), lo, hi)
    ensures LiveBlocks(Release(s, p)) == LiveBlocks(s) - {s[Find(s, p)]}
  {
    var k := Find(s, p);
    var t := Freed(s, k);
    FreedEffect(s, lo, hi, k);
    CoalesceEffect(t, lo, hi, 0);
  }

  lemma FreedEffect(s: Heap, lo: nat, hi: nat, k: nat)
    requires Sound(s, lo, hi) && k < |s| && s[k].use.Live?
    ensures Sound(Freed(s, k), lo, hi)
    ensures LiveBlocks(Freed(s, k)) == LiveBlocks(s) - {s[k]}
  {
    var t := Freed(s, k);
    assert BlockOk(s[k]);
    forall j | 0 <= j < |t| - 1 ensures t[j].End() == t[j+1].addr {
      assert s[j].End() == s[j+1].addr;
    }
    forall b | b in LiveBlocks(s) && b != s[k] ensures b in t {
      var j :| 0 <= j < |s| && s[j] == b;
      assert t[j] == b;
    }
    forall b | b in LiveBlocks(t) ensures b in s && b != s[k] {
      var j :| 0 <= j < |t| && t[j] == b;
      assert j != k && s[j] == b;
      DistinctBlocks(s, lo, hi, j, k);
    }
  }

  lemma DistinctBlocks(s: Heap, lo: nat, hi: nat, i: nat, j: nat)
    requires Sound(s, lo, hi) && i < |s| && j < |s| && i != j
    ensures s[i].End() <= s[j].addr || s[j].End() <= s[i].addr
    ensures s[i] != s[j]
  {
    assert BlockOk(s[i]) && BlockOk(s[j]);
    if i < j { InOrder(s, lo, hi, i, j); } else { InOrder(s, lo, hi, j, i); }
  }

  // ----- whole runs

  datatype Op = Memalign(align: nat, size: nat) | Calloc(count: nat, size: nat) | ReleaseOp(p: nat)

  predicate CallocOverflows(count: nat, size: nat) {
    size > 0 && count > (ADDRESS_SPACE - 1) / size
  }

  /** A caller frees only NULL or a pointer it still holds. */
  predicate Legal(s: Heap, op: Op) {
    op.ReleaseOp? && op.p != NULL ==> IsLive(s, op.p)
  }

  function Step(s: Heap, op: Op): Heap
    requires Legal(s, op)
  {
    match op
    case Memalign(align, size) => Allocate(s, align, size).0
    case Calloc(count, size) => if CallocOverflows(count, size) then s else Allocate(s, 8, count * size).0
    case ReleaseOp(p) => if p == NULL then s else Release(s, p)
  }

  ghost predicate Run(s: Heap, ops: seq<Op>, t: Heap)
    decreases |ops|
  {
    if ops == [] then s == t
    else Legal(s, ops[0]) && Run(Step(s, ops[0]), ops[1..], t)
  }

  lemma FittedAfter(s: Heap, lo: nat, hi: nat, align: nat, size: nat)
    requires Invariant(s, lo, hi) && AllFitted(LiveBlocks(s)) && 0 < lo
    ensures Invariant(Allocate(s, align, size).0, lo, hi)
    ensures AllFitted(LiveBlocks(Allocate(s, align, size).0))
  {
    AllocateEffect(s, lo, hi, align, size);
  }

  lemma StepKeepsInvariant(s: Heap, lo: nat, hi: nat, op: Op)
    requires Invariant(s, lo, hi) && AllFitted(LiveBlocks(s)) && 0 < lo && Legal(s, op)
    ensures Invariant(Step(s, op), lo, hi) && AllFitted(LiveBlocks(Step(s, op)))
  {
    match op {
      case Memalign(align, size) => FittedAfter(s, lo, hi, align, size);
      case Calloc(count, size) => FittedAfter(s, lo, hi, 8, count * size);
      case ReleaseOp(p) => if p != NULL { ReleaseEffect(s, lo, hi, p); }
    }
  }

  lemma {:induction false} RunKeepsInvariant(s: Heap, lo: nat, hi: nat, ops: seq<Op>, t: Heap)
    requires Invariant(s, lo, hi) && AllFitted(LiveBlocks(s)) && 0 < lo && Run(s, ops, t)
    ensures Invariant(t, lo, hi) && AllFitted(LiveBlocks(t))
    decreases |ops|
  {
    if ops != [] {
      StepKeepsInvariant(s, lo, hi, ops[0]);
      RunKeepsInvariant(Step(s, ops[0]), lo, hi, ops[1..], t);
    }
  }

  lemma WholeIsInvariant(lo: nat, hi: nat)
    requires 0 < lo && lo + HEADER <= hi && lo % WORD == 0 && hi % WORD == 0
    ensures Invariant(Whole(lo, hi), lo, hi) && LiveBlocks(Whole(lo, hi)) == {}
  {
    assert BlockOk(Whole(lo, hi)[0]);
  }

  predicate Apart(a: nat, aEnd: nat, b: nat, bEnd: nat) {
    aEnd <= b || bEnd <= a
  }

  /** The payload of live block b overlaps neither the header nor the back-pointer of c, nor,
      when c is another block, the payload of c. */
  predicate Isolated(b: Block, c: Block, same: bool)
    requires b.use.Live?
  {
    var p, e := b.use.payload, b.use.payload + b.use.request;
    && Apart(p, e, c.addr, c.addr + HEADER)
    && (c.use.Live? ==>
      && c.use.payload >= WORD
      && Apart(p, e, c.use.payload - WORD, c.use.payload)
      && (same || Apart(p, e, c.use.payload, c.use.payload + c.use.request)))
  }

  lemma BlocksIsolated(s: Heap, lo: nat, hi: nat, i: nat, j: nat)
    requires Sound(s, lo, hi) && i < |s| && j < |s| && s[i].use.Live?
    ensures Isolated(s[i], s[j], i == j)
  {
    assert BlockOk(s[i]) && BlockOk(s[j]);
    if i != j { DistinctBlocks(s, lo, hi, i, j); }
  }

  /** What a caller relies on for a live block of the heap. */
  ghost predicate SafeBlock(s: Heap, lo: nat, hi: nat, i: nat)
    requires i < |s| && s[i].use.Live?
  {
    && lo <= s[i].use.payload && s[i].use.payload + s[i].use.request <= hi
    && forall j {:trigger s[j]} :: 0 <= j < |s| ==> Isolated(s[i], s[j], i == j)
  }

  lemma InvariantIsSafe(s: Heap, lo: nat, hi: nat, i: nat)
    requires Sound(s, lo, hi) && i < |s| && s[i].use.Live?
    ensures SafeBlock(s, lo, hi, i)
  {
    assert BlockOk(s[i]);
    assert lo <= s[i].addr && s[i].End() <= hi by { Ordered(s, lo, hi); }
    forall j | 0 <= j < |s| ensures Isolated(s[i], s[j], i == j) {
      BlocksIsolated(s, lo, hi, i, j);
    }
  }

  /** Safety over every run of allocations and releases from the untouched arena: the blocks
      tile it, no two free blocks are neighbours, and each live payload is aligned, large
      enough, inside the arena and isolated from everything the allocator or another
      caller stores. */
  lemma EveryRunIsSafe(lo: nat, hi: nat, ops: seq<Op>, t: Heap)
    requires 0 < lo && lo + HEADER <= hi && lo % WORD == 0 && hi % WORD == 0
    requires Run(Whole(lo, hi), ops, t)
    ensures Tiles(t, lo, hi) && Coalesced(t, |t|) && AllFitted(LiveBlocks(t))
    ensures forall i :: 0 <= i < |t| && t[i].use.Live? ==> SafeBlock(t, lo, hi, i)
    ensures FreeBytes(t) + LiveBytes(t) == hi - lo
  {
    WholeIsInvariant(lo, hi);
    RunKeepsInvariant(Whole(lo, hi), lo, hi, ops, t);
    BytesAddUp(t, lo, hi);
    forall i | 0 <= i < |t| && t[i].use.Live? ensures SafeBlock(t, lo, hi, i) {
      InvariantIsSafe(t, lo, hi, i);
    }
  }

  lemma NothingLiveMeansWhole(s: Heap, lo: nat, hi: nat)
    requires Invariant(s, lo, hi) && LiveBlocks(s) == {}
    ensures lo <= hi && s == Whole(lo, hi)
  {
    forall i | 0 <= i < |s| ensures s[i].use.Free? {
      assert s[i] !in LiveBlocks(s);
    }
    assert !BothFree(s, 0);
  }

  ghost predicate ReleasesAll(s: Heap, order: seq<nat>, t: Heap)
    decreases |order|
  {
    if order == [] then s == t
    else IsLive(s, order[0]) && ReleasesAll(Release(s, order[0]), order[1..], t)
  }

  function Pointers(s: Heap): set<nat> {
    set b | b in LiveBlocks(s) :: b.use.payload
  }

  /** Freeing every live pointer once, in any order, is possible and leaves one free block
      covering the arena. */
  lemma {:induction false} FreeingAllRestoresTheArena(s: Heap, lo: nat, hi: nat, order: seq<nat>)
    requires Invariant(s, lo, hi)
    requires (set p | p in order) == Pointers(s)
    requires forall i, j :: 0 <= i < j < |order| ==> order[i] != order[j]
    ensures lo <= hi && ReleasesAll(s, order, Whole(lo, hi))
    decreases |order|
  {
    if order == [] {
      forall b | b in LiveBlocks(s) ensures b.use.payload in Pointers(s) {}
      assert LiveBlocks(s) == {};
      NothingLiveMeansWhole(s, lo, hi);
    } else {
      var p, rest := order[0], order[1..];
      assert p in Pointers(s);
      var b :| b in LiveBlocks(s) && b.use.payload == p;
      var i :| 0 <= i < |s| && s[i] == b;
      assert Owns(s[i], p);
      var k, t := Find(s, p), Release(s, p);
      ReleaseEffect(s, lo, hi, p);
      forall c | c in LiveBlocks(t) ensures c.use.payload != p && c.use.payload in Pointers(s) {
        var j :| 0 <= j < |s| && s[j] == c;
        if c.use.payload == p { OwnerIsUnique(s, lo, hi, j, k, p); }
      }
      forall q | q in Pointers(s) && q != p ensures q in Pointers(t) {
        var c :| c in LiveBlocks(s) && c.use.payload == q;
        assert c in LiveBlocks(t);
      }
      assert (set q | q in rest) == Pointers(t) by {
        forall q | q in rest ensures q in Pointers(t) {
          assert q in order && q != p;
        }
        forall q | q in Pointers(t) ensures q in rest {
          assert q in order;
        }
      }
      FreeingAllRestoresTheArena(t, lo, hi, rest);
    }
  }

  /** The first two requests for 64 bytes in the linked arena. */
  lemma FirstTwo(lo: nat, hi: nat)
    requires lo == 0x21e00000 && hi == 0x21f00000
    ensures var (s, p) := Allocate(Whole(lo, hi), 8, 64);
            p == 0x21e00010 && Allocate(s, 8, 64).1 == 0x21e00060
  {
    ResidueIsModulus(lo + 16 + 7, 8);
    ResidueIsModulus(lo + 80 + 16 + 7, 8);
    var b := Block(lo, hi - lo, Free);
    assert PayloadIn(b, 8) == 0x21e00010 && Need(b, 8, 64) == 80;
    var s := Allocate(Whole(lo, hi), 8, 64).0;
    assert s == [Block(lo, 80, Live(0x21e00010, 64, 8)), Block(lo + 80, hi - lo - 80, Free)];
    assert PayloadIn(s[1], 8) == 0x21e00060 && Need(s[1], 8, 64) == 80;
    FirstFitAt(s, 8, 64, 1);
  }

  /** The address arithmetic of the walk stays inside 32 bits. */
  lemma NoWrap(s: Heap, lo: nat, hi: nat, a: nat, size: nat, i: nat)
    requires Sound(s, lo, hi) && i < |s| && hi + 3 * LIMIT <= ADDRESS_SPACE
    requires 0 < a <= LIMIT && size <= LIMIT
    ensures s[i].addr + OVERHEAD + a - 1 < ADDRESS_SPACE
    ensures s[i].addr + OVERHEAD <= PayloadIn(s[i], a)
    ensures PayloadIn(s[i], a) - s[i].addr + size + WORD - 1 < ADDRESS_SPACE
  {
    InArena(s, lo, hi, i);
    assert BlockOk(s[i]);
    RoundUpIsLeast(s[i].addr + OVERHEAD, a);
  }

  // ----- the allocator in memory

  type Memory = map<nat, nat>  // word-aligned address to word

  function NextOf(s: Heap, i: nat): nat {
    if i + 1 < |s| then s[i+1].addr else NULL
  }

  function Flag(u: Use): nat {
    if u.Free? then 0 else 1
  }

  predicate Holds(mem: Memory, a: nat, v: nat) {
    a in mem && mem[a] == v
  }

  /** Byte r of a little-endian word. */
  function ByteOf(v: nat, r: nat): nat {
    if r == 0 then v % 256 else ByteOf(v / 256, r - 1)
  }

  /** A word whose first r bytes were overwritten by zeros. */
  function LowCleared(v: nat, r: nat): nat {
    if r == 0 then v else 256 * LowCleared(v / 256, r - 1)
  }

  lemma {:induction false} LowBytesZero(v: nat, r: nat, j: nat)
    ensures ByteOf(LowCleared(v, r), j) == if j < r then 0 else ByteOf(v, j)
  {
    if r > 0 {
      var x := LowCleared(v / 256, r - 1);
      assert 256 * x % 256 == 0 && 256 * x / 256 == x;
      if j > 0 { LowBytesZero(v / 256, r - 1, j - 1); }
    }
  }

  lemma {:induction false} ZeroHasZeroBytes(r: nat)
    ensures ByteOf(0, r) == 0
  {
    if r > 0 { ZeroHasZeroBytes(r - 1); }
  }

  /** The byte at any address is zero. */
  predicate ZeroByte(mem: Memory, a: nat) {
    var w := a - a % WORD;
    w in mem && ByteOf(mem[w], a % WORD) == 0
  }

  /** Which word of a payload of n bytes holds its byte j. */
  lemma WordsOf(p: nat, j: nat, n: nat)
    requires p % WORD == 0 && j < n
    ensures (p + j) % WORD == j % WORD && p + j - j % WORD == p + j / WORD * WORD
    ensures (j / WORD + 1) * WORD <= n || (j / WORD * WORD == n - n % WORD && j % WORD < n % WORD)
  {
    assert p + j == WORD * (p / WORD + j / WORD) + j % WORD;
  }

  /** Whole words of zeros and a cleared tail make every byte of the payload zero. */
  lemma PayloadIsZero(mem: Memory, p: nat, n: nat, v: nat, a: nat)
    requires p % WORD == 0 && p <= a < p + n
    requires forall k: nat {:trigger k * WORD} :: (k + 1) * WORD <= n ==> Holds(mem, p + k * WORD, 0)
    requires n % WORD > 0 ==> Holds(mem, p + n - n % WORD, LowCleared(v, n % WORD))
    ensures ZeroByte(mem, a)
  {
    var k, r := (a - p) / WORD, (a - p) % WORD;
    WordsOf(p, a - p, n);
    if (k + 1) * WORD <= n {
      assert Holds(mem, p + k * WORD, 0);
      ZeroHasZeroBytes(r);
    } else {
      LowBytesZero(v, n % WORD, r);
    }
  }

  /** Block i is stored: size, next and used flag in its header, and the back-pointer of a live one. */
  predicate Stored(mem: Memory, s: Heap, i: nat)
    requires i < |s|
  {
    var b := s[i];
    && Holds(mem, b.addr, b.size) && Holds(mem, b.addr + 4, NextOf(s, i)) && Holds(mem, b.addr + 8, Flag(b.use))
    && (b.use.Live? && b.use.payload >= WORD ==> Holds(mem, b.use.payload - WORD, b.addr))
  }

  predicate InMemory(mem: Memory, s: Heap) {
    forall i: nat :: i < |s| ==> Stored(mem, s, i)
  }

  /** Memory that agrees outside one block's bytes still stores the other blocks. */
  lemma OtherBlocksKept(mem: Memory, mem': Memory, s: Heap, lo: nat, hi: nat, k: nat, i: nat)
    requires Sound(s, lo, hi) && k < |s| && i < |s| && i != k && Stored(mem, s, i)
    requires AgreeOutside(mem, mem', s[k].addr, s[k].End())
    ensures Stored(mem', s, i)
  {
    assert BlockOk(s[i]) && BlockOk(s[k]);
    DistinctBlocks(s, lo, hi, i, k);
  }

  /** The words written by an allocation are the headers and back-pointer of the carved blocks. */
  lemma CarveStored(was: Memory, mem: Memory, s: Heap, lo: nat, hi: nat, a: nat, size: nat, i: nat)
    requires Sound(s, lo, hi) && InMemory(was, s) && i < |s|
    requires IsPowerOfTwo(a) && a >= WORD && size > 0 && Fits(s[i], a, size)
    requires mem == CarveWrites(was, s, i, a, size)
    ensures InMemory(mem, s[..i] + Carve(s[i], a, size) + s[i+1..])
  {
    var t := s[..i] + Carve(s[i], a, size) + s[i+1..];
    forall j | 0 <= j < |t| ensures Stored(mem, t, j) {
      CarveStoredAt(was, mem, s, lo, hi, a, size, i, j);
    }
  }

  lemma CarveStoredAt(was: Memory, mem: Memory, s: Heap, lo: nat, hi: nat, a: nat, size: nat, i: nat, j: nat)
    requires Sound(s, lo, hi) && InMemory(was, s) && i < |s|
    requires IsPowerOfTwo(a) && a >= WORD && size > 0 && Fits(s[i], a, size)
    requires mem == CarveWrites(was, s, i, a, size)
    requires j < |s| - 1 + |Carve(s[i], a, size)|
    ensures Stored(mem, s[..i] + Carve(s[i], a, size) + s[i+1..], j)
  {
    assert BlockOk(s[i]) && Stored(was, s, i);
    CarvedHeaders(was, s, i, a, size);
    CarveWritesInside(was, s, i, a, size);
    ReplacedStored(was, mem, s, lo, hi, Carve(s[i], a, size), i, j);
  }

  predicate AgreeOutside(mem: Memory, mem': Memory, lo: nat, hi: nat) {
    forall a :: a in mem && !(lo <= a < hi) ==> Holds(mem', a, mem[a])
  }

  /** Blocks c stored in place of block i. */
  predicate Replacement(mem: Memory, s: Heap, c: seq<Block>, i: nat)
    requires i < |s|
  {
    && 1 <= |c| <= 2 && c[0].addr == s[i].addr && c[0].use.Live?
    && Holds(mem, c[0].addr, c[0].size) && Holds(mem, c[0].addr + 8, 1)
    && Holds(mem, c[0].addr + 4, if |c| == 2 then c[1].addr else NextOf(s, i))
    && c[0].use.payload >= WORD && Holds(mem, c[0].use.payload - WORD, c[0].addr)
    && (|c| == 2 ==>
      && c[1].use.Free? && Holds(mem, c[1].addr, c[1].size)
      && Holds(mem, c[1].addr + 4, NextOf(s, i)) && Holds(mem, c[1].addr + 8, 0))
  }

  lemma ReplacedStored(was: Memory, mem: Memory, s: Heap, lo: nat, hi: nat, c: seq<Block>, i: nat, j: nat)
    requires Sound(s, lo, hi) && InMemory(was, s) && i < |s|
    requires Replacement(mem, s, c, i) && AgreeOutside(was, mem, s[i].addr, s[i].End())
    requires j < |s| - 1 + |c|
    ensures Stored(mem, s[..i] + c + s[i+1..], j)
  {
    var t := s[..i] + c + s[i+1..];
    if i <= j < i + |c| {
      assert t[j] == c[j - i];
      assert NextOf(t, j) == if j + 1 < i + |c| then c[1].addr else NextOf(s, i);
    } else {
      var k := if j < i then j else j - |c| + 1;
      OtherBlocksKept(was, mem, s, lo, hi, i, k);
      assert t[j] == s[k] && NextOf(t, j) == NextOf(s, k);
    }
  }

  lemma CarvedHeaders(mem: Memory, s: Heap, i: nat, a: nat, size: nat)
    requires i < |s| && BlockOk(s[i]) && Stored(mem, s, i)
    requires IsPowerOfTwo(a) && a >= WORD && size > 0 && Fits(s[i], a, size)
    ensures Replacement(CarveWrites(mem, s, i, a, size), s, Carve(s[i], a, size), i)
  {
    NeedBounds(s[i], a, size);
    var b, p, need := s[i].addr, PayloadIn(s[i], a), Need(s[i], a, size);
    assert b + HEADER <= p - WORD < b + need;
    if s[i].size - need >= MIN_TAIL {
      var mem' := CarveWrites(mem, s, i, a, size);
      assert Holds(mem', b, need) && Holds(mem', b + 4, b + need);
    }
  }

  lemma CarveWritesInside(mem: Memory, s: Heap, i: nat, a: nat, size: nat)
    requires i < |s| && BlockOk(s[i]) && Stored(mem, s, i)
    requires IsPowerOfTwo(a) && a >= WORD && size > 0 && Fits(s[i], a, size)
    ensures AgreeOutside(mem, CarveWrites(mem, s, i, a, size), s[i].addr, s[i].End())
  {
    NeedBounds(s[i], a, size);
  }

  function CarveWrites(mem: Memory, s: Heap, i: nat, a: nat, size: nat): Memory
    requires i < |s| && a > 0 && Fits(s[i], a, size) && Stored(mem, s, i)
  {
    RoundUpIsLeast(s[i].addr + OVERHEAD, a);
    var b, p, need := s[i].addr, PayloadIn(s[i], a), Need(s[i], a, size);
    var m :=
      if mem[b] - need >= MIN_TAIL then
        var tail := b + need;
        mem[tail := mem[b] - need][tail + 4 := mem[b+4]][tail + 8 := 0][b+4 := tail][b := need]
      else mem;
    m[b+8 := 1][p - WORD := b]
  }

  lemma MergeStored(was: Memory, mem: Memory, s: Heap, lo: nat, hi: nat, i: nat)
    requires Sound(s, lo, hi) && InMemory(was, s) && BothFree(s, i)
    requires mem == was[s[i].addr := s[i].size + s[i+1].size][s[i].addr + 4 := NextOf(s, i + 1)]
    ensures InMemory(mem, Merge(s, i))
  {
    var t := Merge(s, i);
    forall j | 0 <= j < |t| ensures Stored(mem, t, j) {
      MergeStoredAt(was, mem, s, lo, hi, i, j);
    }
  }

  lemma MergeStoredAt(was: Memory, mem: Memory, s: Heap, lo: nat, hi: nat, i: nat, j: nat)
    requires Sound(s, lo, hi) && InMemory(was, s) && BothFree(s, i) && j < |s| - 1
    requires mem == was[s[i].addr := s[i].size + s[i+1].size][s[i].addr + 4 := NextOf(s, i + 1)]
    ensures Stored(mem, Merge(s, i), j)
  {
    var t := Merge(s, i);
    assert BlockOk(s[i]) && Stored(was, s, i);
    if j == i {
      assert t[i] == Block(s[i].addr, s[i].size + s[i+1].size, Free);
      assert NextOf(t, i) == NextOf(s, i + 1);
    } else {
      var k := if j < i then j else j + 1;
      assert Stored(was, s, k);
      OtherBlocksKept(was, mem, s, lo, hi, i, k);
      assert t[j] == s[k] && NextOf(t, j) == NextOf(s, k);
    }
  }

  class UsbHeap {
    const start: nat
    const end: nat
    var head: nat
    var mem: Memory
    ghost var blocks: Heap

    ghost predicate Valid()
      reads this
    {
      && 0 < start && start + HEADER <= end && start % WORD == 0 && end % WORD == 0
      && end + 3 * LIMIT <= ADDRESS_SPACE
      && Invariant(blocks, start, end)
      && (head == NULL ==> blocks == Whole(start, end))
      && (head != NULL ==> head == start && InMemory(mem, blocks))
    }

    /** The arena symbols of the linker script; memory starts with no meaning at all. */
    constructor (lo: nat, hi: nat)
      requires 0 < lo && lo + HEADER <= hi && lo % WORD == 0 && hi % WORD == 0
      requires hi + 3 * LIMIT <= ADDRESS_SPACE
      ensures Valid() && start == lo && end == hi && blocks == Whole(lo, hi)
    {
      start, end, head, mem := lo, hi, NULL, map[];
      blocks := Whole(lo, hi);
      WholeIsInvariant(lo, hi);
    }

    /** Split block b when its tail is worth keeping, then mark it used and store the back-pointer. */
    method Take(b: nat, p: nat, need: nat, ghost i: nat, ghost a: nat, ghost size: nat)
      requires Invariant(blocks, start, end) && InMemory(mem, blocks)
      requires i < |blocks| && b == blocks[i].addr
      requires IsPowerOfTwo(a) && a >= WORD && size > 0 && Fits(blocks[i], a, size)
      requires p == PayloadIn(blocks[i], a) && need == Need(blocks[i], a, size)
      modifies this`mem, this`blocks
      ensures Invariant(blocks, start, end) && InMemory(mem, blocks)
      ensures blocks == old(blocks[..i] + Carve(blocks[i], a, size) + blocks[i+1..])
    {
      ghost var s, was := blocks, mem;
      assert Stored(mem, s, i) && BlockOk(s[i]);
      NeedBounds(s[i], a, size);
      if mem[b] - need >= MIN_TAIL {
        var tail := b + need;
        mem := mem[tail := mem[b] - need][tail + 4 := mem[b+4]][tail + 8 := 0];
        mem := mem[b+4 := tail][b := need];
      }
      mem := mem[b+8 := 1][p - WORD := b];
      assert mem == CarveWrites(was, s, i, a, size);
      blocks := s[..i] + Carve(s[i], a, size) + s[i+1..];
      AllocateKeeps(s, start, end, a, size, i);
      CarveStored(was, mem, s, start, end, a, size, i);
    }

    /** The first call writes one free block covering the arena. */
    method FirstUse()
      requires Valid() && head == NULL
      modifies this
      ensures Valid() && head == start && blocks == old(blocks)
    {
      head := start;
      mem := mem[head := end - start][head + 4 := NULL][head + 8 := 0];
    }

    /** The first-fit walk over the headers: block b of index i, its payload and its length. */
    method Search(a: nat, size: nat) returns (b: nat, p: nat, need: nat, ghost i: nat)
      requires Valid() && head != NULL && IsPowerOfTwo(a) && WORD <= a <= LIMIT && 0 < size <= LIMIT
      ensures b == NULL ==> FirstFit(blocks, a, size) == None
      ensures b != NULL ==>
        && FirstFit(blocks, a, size) == Some(i) && b == blocks[i].addr
        && p == PayloadIn(blocks[i], a) && need == Need(blocks[i], a, size)
    {
      b, p, need, i := head, NULL, 0, 0;
      while b != NULL
        invariant 0 <= i <= |blocks| && b == (if i < |blocks| then blocks[i].addr else NULL)
        invariant forall j :: 0 <= j < i ==> !Fits(blocks[j], a, size)
        decreases |blocks| - i
      {
        assert BlockOk(blocks[i]) && Stored(mem, blocks, i);
        NoWrap(blocks, start, end, a, size, i);
        p := RoundUp(b + HEADER + WORD, a);
        need := WordUp(p - b + size);
        if mem[b+8] != 0 || need > mem[b] {
          b, i := mem[b+4], i + 1;
          continue;
        }
        FirstFitAt(blocks, a, size, i);
        return;
      }
      assert i == |blocks| by { if i < |blocks| { InArena(blocks, start, end, i); } }
      FirstFitNone(blocks, a, size);
    }

    method Memalign(align: nat, size: nat) returns (p: nat)
      requires Valid() && align < ADDRESS_SPACE && size < ADDRESS_SPACE
      modifies this
      ensures Valid()
      ensures (blocks, p) == Allocate(old(blocks), align, size) && blocks == Step(old(blocks), Op.Memalign(align, size))
    {
      if BadRequest(align, size) { return NULL; }
      var a := Effective(align);
      if head == NULL { FirstUse(); }
      var b, need;
      ghost var i;
      b, p, need, i := Search(a, size);
      if b == NULL { return NULL; }
      Take(b, p, need, i, a, size);
    }

    /** Refuses a product that does not fit size_t; otherwise zeroes every byte of the payload. */
    method Calloc(count: nat, size: nat) returns (p: nat)
      requires Valid() && count < ADDRESS_SPACE && size < ADDRESS_SPACE
      modifies this
      ensures Valid()
      ensures CallocOverflows(count, size) <==> count * size >= ADDRESS_SPACE
      ensures CallocOverflows(count, size) ==> p == NULL && blocks == old(blocks)
      ensures !CallocOverflows(count, size) ==> (blocks, p) == Allocate(old(blocks), 8, count * size)
      ensures blocks == Step(old(blocks), Op.Calloc(count, size))
      ensures p != NULL ==> forall a :: p <= a < p + count * size ==> ZeroByte(mem, a)
    {
      ProductFits(count, size);
      if size > 0 && count > (ADDRESS_SPACE - 1) / size { return NULL; }
      var n := count * size;
      p := Memalign(8, n);
      if p == NULL { return; }
      ghost var i := AllocatedAt(old(blocks), start, end, 8, n);
      ClearPayload(p, n, i);
    }

    /** memset, a word at a time; the bytes of the last word beyond the payload stay. */
    method ClearPayload(p: nat, n: nat, ghost i: nat)
      requires Valid() && head != NULL && i < |blocks| && blocks[i].use.Live?
      requires blocks[i].use.payload == p && blocks[i].use.request == n
      modifies this`mem
      ensures Valid() && forall a :: p <= a < p + n ==> ZeroByte(mem, a)
      ensures forall a :: a in old(mem) && !(p <= a < p + n) ==> Holds(mem, a, old(mem)[a])
      ensures var tail := p + n - n % WORD;
        n % WORD > 0 && tail in old(mem) ==> Holds(mem, tail, LowCleared(old(mem)[tail], n % WORD))
    {
      assert BlockOk(blocks[i]);
      ClearWords(p, n, i);
      var v := 0;
      if n % WORD > 0 {
        var tail := p + n - n % WORD;
        v := if tail in mem then mem[tail] else 0;
        ClientWrite(i, map[tail := LowCleared(v, n % WORD)]);
      }
      forall a | p <= a < p + n ensures ZeroByte(mem, a) {
        PayloadIsZero(mem, p, n, v, a);
      }
    }

    method ClearWords(p: nat, n: nat, ghost i: nat)
      requires Valid() && head != NULL && i < |blocks| && blocks[i].use.Live?
      requires blocks[i].use.payload == p && blocks[i].use.request == n
      modifies this`mem
      ensures Valid() && forall k: nat {:trigger k * WORD} :: (k + 1) * WORD <= n ==> Holds(mem, p + k * WORD, 0)
      ensures forall a :: a in old(mem) && !(p <= a < p + n - n % WORD) ==> Holds(mem, a, old(mem)[a])
    {
      assert BlockOk(blocks[i]);
      var k := 0;
      while (k + 1) * WORD <= n
        invariant Valid() && k * WORD <= n
        invariant forall a :: a in old(mem) && !(p <= a < p + k * WORD) ==> Holds(mem, a, old(mem)[a])
        invariant forall j: nat {:trigger j * WORD} :: j < k ==> Holds(mem, p + j * WORD, 0)
        decreases n - k
      {
        ClientWrite(i, map[p + k * WORD := 0]);
        k := k + 1;
      }
    }

    method Free(p: nat)
      requires Valid() && (p == NULL || IsLive(blocks, p))
      modifies this
      ensures Valid()
      ensures blocks == if p == NULL then old(blocks) else Release(old(blocks), p)
      ensures old(Legal(blocks, ReleaseOp(p))) && blocks == Step(old(blocks), ReleaseOp(p))
    {
      if p == NULL { return; }
      ghost var k, s, was := Find(blocks, p), blocks, mem;
      assert BlockOk(s[k]) && Stored(mem, s, k);
      var b := mem[p - WORD];
      mem := mem[b+8 := 0];
      blocks := Freed(s, k);
      FreedEffect(s, start, end, k);
      forall i: nat | i < |blocks| ensures Stored(mem, blocks, i) {
        assert Stored(was, s, i);
        if i != k { OtherBlocksKept(was, mem, s, start, end, k, i); }
      }
      CoalesceEffect(blocks, start, end, 0);
      Sweep();
    }

    /** The merging loop at the end of usb_free. */
    method Sweep()
      requires head == start > 0 && Sound(blocks, start, end) && InMemory(mem, blocks)
      modifies this`mem, this`blocks
      ensures InMemory(mem, blocks) && blocks == Coalesce(old(blocks), 0)
    {
      assert Stored(mem, blocks, 0);
      var b := head;
      ghost var i := 0;
      while b != NULL && mem[b+4] != NULL
        invariant Sound(blocks, start, end) && InMemory(mem, blocks)
        invariant 0 <= i < |blocks| && b == blocks[i].addr && Stored(mem, blocks, i)
        invariant Coalesced(blocks, i) && Coalesce(blocks, i) == Coalesce(old(blocks), 0)
        decreases |blocks| - i
      {
        ghost var s, was := blocks, mem;
        assert Stored(mem, s, i + 1);
        var n := mem[b+4];
        if mem[b+8] == 0 && mem[n+8] == 0 {
          mem := mem[b := mem[b] + mem[n]][b+4 := mem[n+4]];
          MergeEffect(s, start, end, i);
          MergeStored(was, mem, s, start, end, i);
          blocks := Merge(s, i);
          assert Stored(mem, blocks, i);
        } else {
          b, i := n, i + 1;
        }
      }
      Ordered(blocks, start, end);
      assert i + 1 == |blocks|;
    }

    /** A caller writes words of its own payload; the heap does not notice. */
    method ClientWrite(ghost i: nat, writes: Memory)
      requires Valid() && head != NULL && i < |blocks| && blocks[i].use.Live?
      requires forall a :: a in writes ==> blocks[i].use.payload <= a < blocks[i].End()
      modifies this`mem
      ensures Valid() && mem == old(mem) + writes
    {
      ghost var was := mem;
      mem := mem + writes;
      forall j | 0 <= j < |blocks| ensures Stored(mem, blocks, j) {
        assert Stored(was, blocks, j) && BlockOk(blocks[i]);
        if j != i { OtherBlocksKept(was, mem, blocks, start, end, i, j); }
      }
    }
  }
}
