// Bitwise operations on integers of any size, and what masking and or-ing do to the numbers.
module Bits {

  function Pow2(n: nat): (p: nat)
    ensures p > 0
  {
    if n == 0 then 1 else 2 * Pow2(n - 1)
  }

  /** Bitwise and of a two's-complement integer with a mask; Python's integers have infinitely many sign bits. */
  function And(a: int, b: nat): nat
    decreases b
  {
    if b == 0 then 0 else 2 * And(a / 2, b / 2) + (a % 2) * (b % 2)
  }

  function Or(a: int, b: nat): int
    decreases b
  {
    if b == 0 then a else 2 * Or(a / 2, b / 2) + if a % 2 == 1 then 1 else b % 2
  }

  lemma {:induction false} Pow2Add(a: nat, b: nat)
    ensures Pow2(a + b) == Pow2(a) * Pow2(b)
  {
    if a > 0 {
      Pow2Add(a - 1, b);
      assert Pow2(a + b) == 2 * Pow2((a - 1) + b);
      assert 2 * (Pow2(a - 1) * Pow2(b)) == (2 * Pow2(a - 1)) * Pow2(b);
    }
  }

  lemma {:induction false} Pow2Monotone(a: nat, b: nat)
    requires a <= b
    ensures Pow2(a) <= Pow2(b)
  {
    if a < b {
      Pow2Monotone(a, b - 1);
    }
  }

  /** Masking with w ones keeps the remainder modulo the w-th power of two, also of a negative number. */
  lemma {:induction false} AndMask(a: int, w: nat)
    ensures And(a, Pow2(w) - 1) == a % Pow2(w)
    decreases w
  {
    if w > 0 {
      AndMask(a / 2, w - 1);
      AndMaskStep(a, Pow2(w - 1));
      hide And;
    }
  }

  lemma AndMaskStep(a: int, p: nat)
    requires p > 0 && And(a / 2, p - 1) == a / 2 % p
    ensures And(a, 2 * p - 1) == a % (2 * p)
  {
    AndOdd(a, p);
    hide And;
    HalfModulo(a, p);
  }

  lemma AndOdd(a: int, p: nat)
    requires p > 0
    ensures And(a, 2 * p - 1) == 2 * And(a / 2, p - 1) + a % 2
  {
    assert (2 * p - 1) / 2 == p - 1 && (2 * p - 1) % 2 == 1;
  }

  lemma HalfModulo(a: int, p: int)
    requires p > 0
    ensures a % (2 * p) == 2 * ((a / 2) % p) + a % 2
  {
    var h := a / 2;
    var q, r := h / p, 2 * (h % p) + a % 2;
    assert h == p * q + h % p;
    assert a == 2 * h + a % 2 == (2 * p) * q + r;
    ModuloIs(a, 2 * p, q, r);
  }

  lemma ModuloIs(a: int, d: int, q: int, r: int)
    requires d > 0 && a == d * q + r && 0 <= r < d
    ensures a % d == r
  {
    var k := a / d - q;
    assert d * k == r - a % d;
    if k > 0 {
      AtLeast(d, k);
    } else if k < 0 {
      AtLeast(d, -k);
    }
  }

  lemma AtLeast(d: int, k: int)
    requires d > 0 && k > 0
    ensures d * k >= d
  {
  }

  /** A digit above the digits of val. */
  lemma DigitAbove(val: nat, q: nat, digit: nat, p: nat)
    requires val < q && digit < p
    ensures val + digit * q < p * q
  {
    assert (p - digit) * q >= q by { AtLeast(q, p - digit); }
    assert p * q == digit * q + (p - digit) * q;
  }

  /** Or of numbers that share no bit is their sum. */
  lemma {:induction false} OrDisjoint(a: nat, b: nat, w: nat)
    requires a < Pow2(w)
    ensures Or(a, b * Pow2(w)) == a + b * Pow2(w)
  {
    if w == 0 {
      OrZero(b);
    } else {
      var p := Pow2(w - 1);
      var c := b * Pow2(w);
      assert c == 2 * (b * p);
      assert c / 2 == b * p && c % 2 == 0;
      if c != 0 {
        OrDisjoint(a / 2, b, w - 1);
      }
    }
  }

  lemma {:induction false} OrZero(b: nat)
    ensures Or(0, b) == b
  {
    if b > 0 {
      OrZero(b / 2);
    }
  }

  lemma {:induction false} OrNegative(a: int, b: nat)
    requires a < 0
    ensures Or(a, b) < 0
    decreases b
  {
    if b > 0 {
      OrNegative(a / 2, b / 2);
    }
  }
}
