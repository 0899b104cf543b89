/** Fixed-width words as natural numbers: exclusive or, rotation, wrapping arithmetic. */
module Bits {
  import opened Bytes

  const TWO_32: nat := 0x1_0000_0000
  const TWO_64: nat := 0x1_0000_0000_0000_0000

  type u32 = n: nat | n < TWO_32
  type u64 = n: nat | n < TWO_64

  function Pow2(k: nat): (p: nat)
    ensures p > 0
  {
    if k == 0 then 1 else 2 * Pow2(k - 1)
  }

  /** Bitwise exclusive or, one binary digit at a time. */
  function Xor(a: nat, b: nat): nat
    decreases a + b
  {
    if a == 0 && b == 0 then 0
    else 2 * Xor(a / 2, b / 2) + if a % 2 != b % 2 then 1 else 0
  }

  /** The last digit of an exclusive or, and the others. */
  lemma XorDigits(a: nat, b: nat)
    ensures Xor(a, b) / 2 == Xor(a / 2, b / 2)
    ensures Xor(a, b) % 2 == if a % 2 != b % 2 then 1 else 0
  {
  }

  lemma {:induction false} XorTwice(a: nat, k: nat)
    ensures Xor(Xor(a, k), k) == a
    decreases a + k
  {
    if a == 0 && k == 0 {
    } else {
      XorDigits(a, k);
      XorDigits(Xor(a, k), k);
      hide Xor;
      XorTwice(a / 2, k / 2);
    }
  }

  /** The number without its last `k` binary digits. */
  function Dropped(x: nat, k: nat): nat {
    if k == 0 then x else Dropped(x / 2, k - 1)
  }

  lemma {:induction false} XorDropped(a: nat, b: nat, k: nat)
    ensures Dropped(Xor(a, b), k) == Xor(Dropped(a, k), Dropped(b, k))
  {
    hide Xor;
    if k == 0 {
    } else {
      XorDigits(a, b);
      XorDropped(a / 2, b / 2, k - 1);
    }
  }

  lemma {:induction false} DroppedIs(x: nat, k: nat)
    ensures Dropped(x, k) == x / Pow2(k)
  {
    if k == 0 {
    } else {
      DroppedIs(x / 2, k - 1);
      HalfFirst(x, Pow2(k - 1));
    }
  }

  lemma HalfFirst(x: nat, p: nat)
    requires p > 0
    ensures x / (2 * p) == x / 2 / p
  {
    var q, r := x / 2 / p, x / 2 % p;
    assert x / 2 == q * p + r;
    assert q * (2 * p) == 2 * (q * p);
    Quotient(x, 2 * p, q, 2 * r + x % 2);
  }

  lemma Quotient(x: nat, d: nat, q: nat, r: nat)
    requires r < d && x == q * d + r
    ensures x / d == q
  {
    var n := x / d;
    assert x == n * d + x % d;
    assert n > q ==> n * d >= (q + 1) * d == q * d + d;
    assert n < q ==> q * d >= (n + 1) * d == n * d + d;
  }

  lemma {:induction false} XorBound(a: nat, b: nat, k: nat)
    requires a < Pow2(k) && b < Pow2(k)
    ensures Xor(a, b) < Pow2(k)
  {
    if k == 0 {
    } else {
      XorBound(a / 2, b / 2, k - 1);
    }
  }

  /** Exclusive or acts on high and low parts separately. */
  lemma {:induction false} XorSplit(a: nat, b: nat, c: nat, d: nat, k: nat)
    requires b < Pow2(k) && d < Pow2(k)
    ensures Xor(a * Pow2(k) + b, c * Pow2(k) + d) == Xor(a, c) * Pow2(k) + Xor(b, d)
  {
    if k == 0 {
      assert b == 0 && d == 0;
    } else {
      var p := Pow2(k - 1);
      XorSplit(a, b / 2, c, d / 2, k - 1);
      Halve(a, b, p);
      Halve(c, d, p);
      Distribute(Xor(a, c), p);
    }
  }

  lemma Halve(a: nat, b: nat, p: nat)
    ensures (a * (2 * p) + b) / 2 == a * p + b / 2
    ensures (a * (2 * p) + b) % 2 == b % 2
  {
    assert a * (2 * p) == 2 * (a * p);
  }

  lemma Distribute(x: nat, p: nat)
    ensures 2 * (x * p) == x * (2 * p)
  {
  }

  function XorByte(a: byte, b: byte): byte {
    XorBound(a, b, 8);
    assert Pow2(8) == 2 * Pow2(7) == 4 * Pow2(6) == 8 * Pow2(5) == 16 * Pow2(4) == 32 * Pow2(3) == 64 * Pow2(2);
    Xor(a, b)
  }
}
