/** Bitwise operators on natural numbers, bit by bit, and the 32-bit rotation built from them. */
module Bits {

  function Pow2(n: nat): (p: nat)
    ensures p > 0
  {
    if n == 0 then 1 else 2 * Pow2(n - 1)
  }

  function Xor(a: nat, b: nat): nat {
    if a == 0 && b == 0 then 0 else (a % 2 + b % 2) % 2 + 2 * Xor(a / 2, b / 2)
  }

  function And(a: nat, b: nat): nat {
    if a == 0 || b == 0 then 0 else (a % 2) * (b % 2) + 2 * And(a / 2, b / 2)
  }

  function Or(a: nat, b: nat): nat {
    if a == 0 && b == 0 then 0
    else (if a % 2 == 1 || b % 2 == 1 then 1 else 0) + 2 * Or(a / 2, b / 2)
  }

  lemma XorStep(a: nat, b: nat)
    ensures Xor(a, b) == (a % 2 + b % 2) % 2 + 2 * Xor(a / 2, b / 2)
  {
  }

  lemma BitTwice(x: nat, y: nat)
    requires x < 2 && y < 2
    ensures (x + y) % 2 < 2 && ((x + y) % 2 + y) % 2 == x
  {
  }

  lemma {:induction false} XorInvolution(a: nat, b: nat)
    ensures Xor(Xor(a, b), b) == a
    decreases a + b
  {
    if a != 0 || b != 0 {
      hide Xor;
      XorInvolution(a / 2, b / 2);
      XorUndone(a, b);
    }
  }

  lemma XorUndone(a: nat, b: nat)
    requires Xor(Xor(a / 2, b / 2), b / 2) == a / 2
    ensures Xor(Xor(a, b), b) == a
  {
    hide Xor;
    var (x, y) := (a % 2, b % 2);
    var (bit, rest) := ((x + y) % 2, Xor(a / 2, b / 2));
    BitTwice(x, y);
    LowBit(bit, rest);
    XorStep(a, b);
    XorStep(bit + 2 * rest, b);
  }

  lemma LowBit(bit: nat, rest: nat)
    requires bit < 2
    ensures (bit + 2 * rest) % 2 == bit && (bit + 2 * rest) / 2 == rest
  {
  }

  lemma {:induction false} XorBound(a: nat, b: nat, n: nat)
    requires a < Pow2(n) && b < Pow2(n)
    ensures Xor(a, b) < Pow2(n)
  {
    if n > 0 { XorBound(a / 2, b / 2, n - 1); }
  }

  // Numbers without a common one bit are added by |.
  lemma {:induction false} OrDisjoint(high: nat, low: nat, n: nat)
    requires low < Pow2(n)
    ensures Or(high * Pow2(n), low) == high * Pow2(n) + low
    decreases n
  {
    if n == 0 {
      OrZero(high);
    } else {
      OrDisjoint(high, low / 2, n - 1);
      var shifted := high * Pow2(n - 1);
      assert Pow2(n) == 2 * Pow2(n - 1);
      hide Or, Pow2;
      TwiceProduct(high, Pow2(n - 1));
      LowBit(0, shifted);
      OrStep(2 * shifted, low);
    }
  }

  lemma TwiceProduct(a: nat, b: nat)
    ensures a * (2 * b) == 2 * (a * b) >= 0
  {
  }

  lemma OrStep(a: nat, b: nat)
    ensures Or(a, b) == (if a % 2 == 1 || b % 2 == 1 then 1 else 0) + 2 * Or(a / 2, b / 2)
  {
  }

  lemma {:induction false} OrZero(a: nat)
    ensures Or(a, 0) == a
  {
    if a > 0 { OrZero(a / 2); }
  }

  lemma {:induction false} Pow2Adds(m: nat, n: nat)
    ensures Pow2(m) * Pow2(n) == Pow2(m + n)
  {
    if m > 0 {
      Pow2Adds(m - 1, n);
      assert Pow2(m) == 2 * Pow2(m - 1) && Pow2(m + n) == 2 * Pow2(m - 1 + n);
      hide Pow2;
      assert (2 * Pow2(m - 1)) * Pow2(n) == 2 * (Pow2(m - 1) * Pow2(n));
    }
  }

  lemma Pow2Values()
    ensures Pow2(8) == 256 && Pow2(32) == 0x1_0000_0000
  {
    assert Pow2(8) == 256;
    hide Pow2;
    Pow2Adds(8, 8);
    Pow2Adds(16, 16);
  }

  /* ---------- rotation ---------- */

  // ((value << amount) & 0xFFFFFFFF) | (value >> (32 - amount))
  function RotateLeft(value: nat, amount: nat): nat
    requires amount <= 32
  {
    NonNegative(value, Pow2(amount), Pow2(32), Pow2(32 - amount));
    Or((value * Pow2(amount)) % Pow2(32), value / Pow2(32 - amount))
  }

  lemma NonNegative(a: nat, b: nat, c: nat, d: nat)
    requires c > 0 && d > 0
    ensures a * b >= 0 && (a * b) % c >= 0 && a / d >= 0
  {
  }

  lemma MulMonotone(a: nat, b: nat, c: nat)
    requires a <= b
    ensures a * c <= b * c
  {
  }

  lemma OneMoreTimes(a: nat, b: nat)
    ensures (a + 1) * b == a * b + b
  {
  }

  lemma QuotientUnique(q: nat, r: nat, q': nat, r': nat, d: nat)
    requires r < d && r' < d && q * d + r == q' * d + r'
    ensures q == q' && r == r'
  {
    if q < q' {
      OneMoreTimes(q, d);
      MulMonotone(q + 1, q', d);
    } else if q' < q {
      OneMoreTimes(q', d);
      MulMonotone(q' + 1, q, d);
    }
  }

  lemma DivMod(a: nat, q: nat, r: nat, d: nat)
    requires d > 0 && r < d && a == q * d + r
    ensures a / d == q && a % d == r
  {
    QuotientUnique(a / d, a % d, q, r, d);
  }

  lemma BelowProduct(high: nat, low: nat, p: nat, q: nat)
    requires high < p && low < q
    ensures high * q + low < p * q
  {
    OneMoreTimes(high, q);
    MulMonotone(high + 1, p, q);
  }

  lemma Shifted(top: nat, rest: nat, p: nat, q: nat)
    ensures (top * q + rest) * p == top * (p * q) + rest * p
  {
    assert (top * q + rest) * p == (top * q) * p + rest * p;
    assert (top * q) * p == top * (q * p) == top * (p * q);
  }

  // A rotation moves the top bits of a 32-bit value below the others.
  lemma RotateParts(value: nat, top: nat, rest: nat, amount: nat)
    requires amount <= 32 && top < Pow2(amount) && rest < Pow2(32 - amount)
    requires value == top * Pow2(32 - amount) + rest
    ensures value < Pow2(32)
    ensures RotateLeft(value, amount) == rest * Pow2(amount) + top < Pow2(32)
  {
    hide Pow2, Or;
    Pow2Adds(amount, 32 - amount);
    OrDisjoint(rest, top, amount);
    RotateArithmetic(top, rest, Pow2(amount), Pow2(32 - amount), Pow2(32));
  }

  lemma RotateArithmetic(top: nat, rest: nat, p: nat, q: nat, whole: nat)
    requires top < p && rest < q && p * q == whole > 0
    ensures top * q + rest < whole && rest * p + top < whole
    ensures (top * q + rest) * p % whole == rest * p && (top * q + rest) / q == top
  {
    BelowProduct(top, rest, p, q);
    BelowProduct(rest, top, q, p);
    OneMoreTimes(rest, p);
    MulMonotone(rest + 1, q, p);
    Shifted(top, rest, p, q);
    DivMod((top * q + rest) * p, top, rest * p, whole);
    DivMod(top * q + rest, top, rest, q);
  }

  // Rotating on by the remaining bits of the word undoes a rotation.
  lemma RotateInverse(value: nat, amount: nat)
    requires amount <= 32 && value < Pow2(32)
    ensures RotateLeft(value, amount) < Pow2(32)
    ensures RotateLeft(RotateLeft(value, amount), 32 - amount) == value
  {
    hide Pow2, RotateLeft;
    var (p, q) := (Pow2(amount), Pow2(32 - amount));
    var (top, rest) := (value / q, value % q);
    Pow2Adds(amount, 32 - amount);
    assert value == top * q + rest;
    if top >= p { MulMonotone(p, top, q); }
    RotateParts(value, top, rest, amount);
    RotateParts(rest * p + top, rest, top, 32 - amount);
  }
}
