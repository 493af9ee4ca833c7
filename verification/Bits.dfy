/** Bitwise operators of Go on non-negative integers, and powers of two. */
module Bits {
  function Pow2(k: nat): (p: nat)
    ensures p >= 1
  {
    if k == 0 then 1 else 2 * Pow2(k - 1)
  }

  function And(a: nat, b: nat): nat
    decreases a
  {
    if a == 0 then 0 else (a % 2) * (b % 2) + 2 * And(a / 2, b / 2)
  }

  function Or(a: nat, b: nat): nat
    decreases a + b
  {
    if a == 0 then b else if b == 0 then a
    else (if a % 2 == 1 || b % 2 == 1 then 1 else 0) + 2 * Or(a / 2, b / 2)
  }

  function Xor(a: nat, b: nat): nat
    decreases a + b
  {
    if a == 0 then b else if b == 0 then a
    else (a + b) % 2 + 2 * Xor(a / 2, b / 2)
  }

  lemma {:induction false} Pow2Add(j: nat, k: nat)
    ensures Pow2(j + k) == Pow2(j) * Pow2(k)
  {
    if j > 0 { Pow2Add(j - 1, k); }
  }

  lemma {:induction false} Pow2Monotone(j: nat, k: nat)
    requires j <= k
    ensures Pow2(j) <= Pow2(k)
  {
    if j < k { Pow2Monotone(j, k - 1); }
  }

  /** Masking with a power of two less one is the remainder. */
  lemma {:induction false} MaskIsModulo(k: nat, h: nat)
    ensures And(Pow2(k) - 1, h) == h % Pow2(k)
  {
    var q := MaskLeaves(k, h);
    ModuloIs(h, Pow2(k), q, And(Pow2(k) - 1, h));
  }

  lemma {:induction false} MaskLeaves(k: nat, h: nat) returns (q: nat)
    ensures And(Pow2(k) - 1, h) < Pow2(k) && h == q * Pow2(k) + And(Pow2(k) - 1, h)
  {
    if k == 0 {
      q := h;
    } else {
      var p := Pow2(k - 1);
      AndOdd(p - 1, h);
      q := MaskLeaves(k - 1, h / 2);
      Doubled(q, p);
    }
  }

  lemma {:induction false} Doubled(q: nat, p: nat)
    ensures q * (2 * p) == 2 * (q * p)
  {
  }

  lemma {:induction false} AndOdd(m: nat, h: nat)
    ensures And(2 * m + 1, h) == h % 2 + 2 * And(m, h / 2)
  {
    assert (2 * m + 1) % 2 == 1 && (2 * m + 1) / 2 == m;
  }

  lemma {:induction false} ModuloIs(x: nat, d: nat, q: nat, r: nat)
    requires d > 0 && r < d && x == q * d + r
    ensures x % d == r && x / d == q
  {
    var q', r' := x / d, x % d;
    assert x == d * q' + r';
    assert (q - q') * d == r' - r;
    Multiple(q - q', d);
  }

  lemma {:induction false} Multiple(k: int, d: int)
    requires d > 0
    ensures k >= 1 ==> k * d >= d
    ensures k <= -1 ==> k * d <= -d
  {
    if k >= 1 { assert (k - 1) * d >= 0; }
    if k <= -1 { assert (-k - 1) * d >= 0; }
  }

  lemma {:induction false} OrBounds(a: nat, b: nat, k: nat)
    ensures Or(a, b) >= a && Or(a, b) >= b
    ensures a < Pow2(k) && b < Pow2(k) ==> Or(a, b) < Pow2(k)
    decreases a + b
  {
    if a > 0 && b > 0 { OrBounds(a / 2, b / 2, if k == 0 then 0 else k - 1); }
  }

  lemma {:induction false} XorBound(a: nat, b: nat, k: nat)
    requires a < Pow2(k) && b < Pow2(k)
    ensures Xor(a, b) < Pow2(k)
    decreases a + b
  {
    if a > 0 && b > 0 { XorBound(a / 2, b / 2, k - 1); }
  }

  function Shifted(a: nat, k: nat): nat {
    if k == 0 then a else 2 * Shifted(a, k - 1)
  }

  lemma {:induction false} ShiftedIs(a: nat, k: nat)
    ensures Shifted(a, k) == a * Pow2(k)
  {
    if k > 0 {
      ShiftedIs(a, k - 1);
      Doubled(a, Pow2(k - 1));
    }
  }

  /** The bits from position `k` up and the bits below it do not mix. */
  lemma {:induction false} OrSplits(a: nat, b: nat, d: nat, k: nat)
    requires b < Pow2(k) && d < Pow2(k)
    ensures Or(a * Pow2(k) + b, d) == a * Pow2(k) + Or(b, d)
  {
    ShiftedIs(a, k);
    OrKeepsShifted(a, b, d, k);
  }

  lemma {:induction false} OrKeepsShifted(a: nat, b: nat, d: nat, k: nat)
    requires b < Pow2(k) && d < Pow2(k)
    ensures Or(Shifted(a, k) + b, d) == Shifted(a, k) + Or(b, d)
  {
    if k > 0 {
      OrKeepsShifted(a, b / 2, d / 2, k - 1);
      OrEven(Shifted(a, k - 1), b, d);
    }
  }

  lemma {:induction false} OrEven(y: nat, b: nat, d: nat)
    requires Or(y + b / 2, d / 2) == y + Or(b / 2, d / 2)
    ensures Or(2 * y + b, d) == 2 * y + Or(b, d)
  {
    assert (2 * y + b) / 2 == y + b / 2 && (2 * y + b) % 2 == b % 2;
    OrStep(2 * y + b, d);
    OrStep(b, d);
  }

  lemma {:induction false} OrStep(a: nat, b: nat)
    ensures Or(a, b) == (if a % 2 == 1 || b % 2 == 1 then 1 else 0) + 2 * Or(a / 2, b / 2)
  {
    if a == 0 || b == 0 { assert Or(a / 2, b / 2) == (a + b) / 2; }
  }

  /** The bit at place `i`, counted from the lowest. */
  predicate Bit(n: nat, i: nat) {
    if i == 0 then n % 2 == 1 else Bit(n / 2, i - 1)
  }

  /** The operators work bit by bit. */
  lemma {:induction false} BitByBit(a: nat, b: nat, i: nat)
    ensures Bit(And(a, b), i) <==> Bit(a, i) && Bit(b, i)
    ensures Bit(Or(a, b), i) <==> Bit(a, i) || Bit(b, i)
    ensures Bit(Xor(a, b), i) <==> Bit(a, i) != Bit(b, i)
  {
    AndHalves(a, b);
    OrHalves(a, b);
    XorHalves(a, b);
    if i > 0 { BitByBit(a / 2, b / 2, i - 1); }
  }

  lemma {:induction false} AndHalves(a: nat, b: nat)
    ensures And(a, b) / 2 == And(a / 2, b / 2) && (And(a, b) % 2 == 1 <==> a % 2 == 1 && b % 2 == 1)
  {
    if a > 0 { HalvesOf(And(a / 2, b / 2), (a % 2) * (b % 2)); }
  }

  lemma {:induction false} OrHalves(a: nat, b: nat)
    ensures Or(a, b) / 2 == Or(a / 2, b / 2) && (Or(a, b) % 2 == 1 <==> a % 2 == 1 || b % 2 == 1)
  {
    if a > 0 && b > 0 { HalvesOf(Or(a / 2, b / 2), if a % 2 == 1 || b % 2 == 1 then 1 else 0); }
  }

  lemma {:induction false} XorHalves(a: nat, b: nat)
    ensures Xor(a, b) / 2 == Xor(a / 2, b / 2) && (Xor(a, b) % 2 == 1 <==> (a % 2 == 1) != (b % 2 == 1))
  {
    if a > 0 && b > 0 { HalvesOf(Xor(a / 2, b / 2), (a + b) % 2); }
  }

  lemma {:induction false} HalvesOf(h: nat, d: nat)
    requires d < 2
    ensures (d + 2 * h) / 2 == h && (d + 2 * h) % 2 == d
  {
  }

  lemma {:induction false} XorZero(a: nat)
    ensures Xor(a, 0) == a && Xor(0, a) == a
  {
  }

  /** One digit more of both numbers. */
  lemma {:induction false} XorDigit(a: nat, b: nat, x: nat, c: nat, d: nat)
    requires Xor(a, b) == x && c < 2 && d < 2
    ensures Xor(2 * a + c, 2 * b + d) == 2 * x + (if c == d then 0 else 1)
  {
    XorHalves(2 * a + c, 2 * b + d);
    HalvesOf(a, c);
    HalvesOf(b, d);
  }

}
