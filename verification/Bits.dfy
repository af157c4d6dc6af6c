/** Bitwise operations on natural numbers, and what the checksum and the address rules need of them. */
module Bits {

  function Pow2(n: nat): (r: nat)
    ensures r >= 1
  {
    if n == 0 then 1 else 2 * Pow2(n - 1)
  }

  function Xor(a: nat, b: nat): nat
    decreases a + b
  {
    if a == 0 && b == 0 then 0 else (a + b) % 2 + 2 * Xor(a / 2, b / 2)
  }

  function And(a: nat, b: nat): nat {
    if a == 0 || b == 0 then 0 else (a % 2) * (b % 2) + 2 * And(a / 2, b / 2)
  }

  lemma {:induction false} XorBound(a: nat, b: nat, n: nat)
    requires a < Pow2(n) && b < Pow2(n)
    ensures Xor(a, b) < Pow2(n)
  {
    if n > 0 { XorBound(a / 2, b / 2, n - 1); }
  }

  lemma {:induction false} XorZero(a: nat)
    ensures Xor(a, 0) == a
  {
    if a > 0 { XorZero(a / 2); }
  }

  lemma {:induction false} XorBits(a: nat, b: nat)
    ensures Xor(a, b) % 2 == (a + b) % 2 && Xor(a, b) / 2 == Xor(a / 2, b / 2)
  {
    if a > 0 || b > 0 { Digit((a + b) % 2, Xor(a / 2, b / 2)); }
  }

  lemma Digit(r: nat, k: nat)
    requires r < 2
    ensures (r + 2 * k) % 2 == r && (r + 2 * k) / 2 == k
  {}

  lemma {:induction false} XorCommutes(a: nat, b: nat)
    ensures Xor(a, b) == Xor(b, a)
    decreases a + b
  {
    if a + b > 0 { XorCommutes(a / 2, b / 2); }
  }

  lemma {:induction false} XorAssociates(a: nat, b: nat, c: nat)
    ensures Xor(Xor(a, b), c) == Xor(a, Xor(b, c))
    decreases a + b + c
  {
    if a + b + c > 0 {
      var ab, bc := Xor(a, b), Xor(b, c);
      var x, y := Xor(ab, c), Xor(a, bc);
      assert x / 2 == y / 2 by {
        XorBits(a, b);
        XorBits(b, c);
        XorBits(ab, c);
        XorBits(a, bc);
        XorAssociates(a / 2, b / 2, c / 2);
      }
      assert x % 2 == y % 2 by {
        XorBits(a, b);
        XorBits(b, c);
        XorBits(ab, c);
        XorBits(a, bc);
        Parity(a, b, c, ab, bc);
      }
    }
  }

  lemma Parity(a: nat, b: nat, c: nat, ab: nat, bc: nat)
    requires ab % 2 == (a + b) % 2 && bc % 2 == (b + c) % 2
    ensures (ab + c) % 2 == (a + bc) % 2
  {}

  lemma {:induction false} XorSwap(a: nat, b: nat, c: nat)
    ensures Xor(Xor(a, b), c) == Xor(Xor(a, c), b)
  {
    XorAssociates(a, b, c);
    XorCommutes(b, c);
    XorAssociates(a, c, b);
  }

  lemma {:induction false} XorInjective(a: nat, b: nat, c: nat)
    requires Xor(a, b) == Xor(a, c)
    ensures b == c
  {
    XorCommutes(a, b);
    XorCommutes(a, c);
    XorUndo(b, a);
    XorUndo(c, a);
  }

  /** y shifted left n places. */
  function Scale(y: nat, n: nat): (r: nat)
    ensures r >= y
    decreases n
  {
    if n == 0 then y else Scale(2 * y, n - 1)
  }

  lemma {:induction false} ScaleDoubles(y: nat, n: nat)
    ensures Scale(2 * y, n) == 2 * Scale(y, n)
    decreases n
  {
    if n > 0 { ScaleDoubles(2 * y, n - 1); }
  }

  /** Numbers without common bits are added by exclusive or. */
  lemma {:induction false} XorDisjoint(a: nat, y: nat, n: nat)
    requires a < Pow2(n)
    ensures Xor(a, Scale(y, n)) == a + Scale(y, n)
  {
    if n == 0 {
      XorCommutes(0, y);
      XorZero(y);
    } else {
      ScaleDoubles(y, n - 1);
      XorDisjoint(a / 2, y, n - 1);
      XorDouble(a, Scale(y, n - 1));
    }
  }

  lemma {:induction false} XorDouble(a: nat, z: nat)
    requires Xor(a / 2, z) == a / 2 + z
    ensures Xor(a, 2 * z) == a + 2 * z
  {
    XorBits(a, 2 * z);
    Digit(0, z);
    Even(a, z);
  }

  lemma Even(a: nat, z: nat)
    ensures (a + 2 * z) % 2 == a % 2
  {}

  lemma {:induction false} XorUndo(a: nat, b: nat)
    ensures Xor(Xor(a, b), b) == a
    decreases a + b
  {
    if a + b > 0 {
      var ab := Xor(a, b);
      var x := Xor(ab, b);
      assert x / 2 == a / 2 by {
        XorBits(a, b);
        XorBits(ab, b);
        XorUndo(a / 2, b / 2);
      }
      assert x % 2 == a % 2 by {
        XorBits(a, b);
        XorBits(ab, b);
        ParityTwice(a, b, ab);
      }
    }
  }

  lemma ParityTwice(a: nat, b: nat, ab: nat)
    requires ab % 2 == (a + b) % 2
    ensures (ab + b) % 2 == a % 2
  {}

  /** A top bit present in one operand only is present in the result. */
  lemma {:induction false} XorTop(a: nat, b: nat, n: nat)
    requires a < Pow2(n) <= b < Pow2(n + 1)
    ensures Xor(a, b) >= Pow2(n)
  {
    if n > 0 { XorTop(a / 2, b / 2, n - 1); }
  }

  // ----- masks

  predicate IsPowerOfTwo(a: nat) {
    a == 1 || (a > 1 && a % 2 == 0 && IsPowerOfTwo(a / 2))
  }

  lemma {:induction false} AndSelf(a: nat)
    ensures And(a, a) == a
  {
    if a > 0 { AndSelf(a / 2); }
  }

  /** The usual test: clearing the lowest one-bit leaves nothing. */
  lemma {:induction false} PowerOfTwoIff(a: nat)
    requires a > 0
    ensures IsPowerOfTwo(a) <==> And(a, a - 1) == 0
  {
    if a % 2 == 0 {
      PowerOfTwoIff(a / 2);
      assert (a - 1) / 2 == a / 2 - 1 && (a - 1) % 2 == 1;
    } else if a > 1 {
      assert (a - 1) / 2 == a / 2;
      AndSelf(a / 2);
    }
  }

  lemma {:induction false} AndOnes(y: nat, n: nat)
    requires y < Pow2(n)
    ensures And(y, Pow2(n) - 1) == y
    decreases n
  {
    if n > 0 {
      AndOnes(y / 2, n - 1);
      assert (Pow2(n) - 1) / 2 == Pow2(n - 1) - 1 && (Pow2(n) - 1) % 2 == 1;
    }
  }

  /** Masking an n-bit number with the complement of a - 1 takes it down to a multiple of the power of
      two a. */
  lemma {:induction false} MaskRoundsDown(y: nat, a: nat, n: nat)
    requires IsPowerOfTwo(a) && a <= Pow2(n) && y < Pow2(n)
    ensures And(y, Pow2(n) - a) == y - y % a
    decreases n
  {
    if a == 1 {
      AndOnes(y, n);
    } else {
      var h, m := a / 2, Pow2(n) - a;
      MaskRoundsDown(y / 2, h, n - 1);
      assert m % 2 == 0 && m / 2 == Pow2(n - 1) - h;
      HalveRemainder(y, h);
      if m == 0 || y == 0 {
        assert y % a == y;
      }
    }
  }

  lemma HalveRemainder(y: nat, h: nat)
    requires h > 0
    ensures y % (2 * h) == y % 2 + 2 * (y / 2 % h)
  {
    var q, r := y / 2 / h, y / 2 % h;
    assert y / 2 == h * q + r;
    assert y == 2 * h * q + (2 * r + y % 2);
    SameQuotient(y, 2 * h, q, 2 * r + y % 2);
  }

  lemma SameQuotient(x: nat, a: nat, q: nat, r: nat)
    requires a > 0 && x == a * q + r && r < a
    ensures r == x % a
  {
    assert a * (q - x / a) == a * q - a * (x / a);
    MulSign(a, q - x / a);
  }

  lemma MulSign(a: int, d: int)
    requires a > 0
    ensures d >= 1 ==> a * d >= a
    ensures d <= 0 ==> a * d <= 0
    ensures d <= -1 ==> a * d <= -a
  {
    if d >= 1 { assert a * (d - 1) >= 0; }
    if d <= -1 { assert a * (d + 1) <= 0; }
  }
}
