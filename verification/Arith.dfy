/** The few facts about multiplication and division that several modules need. */
module Arith {

  lemma MulOrder(a: nat, b: nat, d: nat)
    requires a < b
    ensures a * d + d <= b * d
  {
    Distribute(a, b - a, d);
    Positive(b - a, d);
  }

  /** Quotient and remainder are unique. */
  lemma DivModUnique(n: nat, d: nat, q: nat, r: nat)
    requires d > 0 && n == q * d + r && r < d
    ensures n % d == r && n / d == q
  {
    var q', r' := n / d, n % d;
    assert n == q' * d + r';
    if q < q' {
      MulOrder(q, q', d);
    } else if q' < q {
      MulOrder(q', q, d);
    }
  }

  /** Subtracting the remainder leaves a multiple. */
  lemma SubMod(n: nat, d: nat)
    requires d > 0
    ensures (n - n % d) % d == 0
  {
    var q := n / d;
    assert n == q * d + n % d;
    DivModUnique(q * d, d, q, 0);
  }

  /** Rounding up to a multiple. */
  function AlignTo(n: nat, a: nat): (r: nat)
    requires a > 0
    ensures n <= r < n + a && r % a == 0
  {
    SubMod(n + a - 1, a);
    n + a - 1 - (n + a - 1) % a
  }

  /** Multiples are closed under addition and subtraction. */
  lemma AddMod(a: nat, b: nat, d: nat)
    requires d > 0 && a % d == 0 && b % d == 0
    ensures (a + b) % d == 0
    ensures a >= b ==> (a - b) % d == 0
  {
    var p, q := a / d, b / d;
    assert a == p * d && b == q * d;
    Distribute(p, q, d);
    DivModUnique(a + b, d, p + q, 0);
    if a >= b {
      if p < q {
        MulOrder(p, q, d);
      }
      Distribute(p - q, q, d);
      DivModUnique(a - b, d, p - q, 0);
    }
  }

  lemma Positive(k: nat, d: nat)
    requires k >= 1
    ensures k * d >= d
  {
  }

  lemma Distribute(p: nat, q: nat, d: nat)
    ensures (p + q) * d == p * d + q * d
  {
  }

  function Pow2(k: nat): (r: nat)
    ensures r >= 1
  {
    if k == 0 then 1 else 2 * Pow2(k - 1)
  }

  lemma {:induction false} Pow2Monotone(a: nat, b: nat)
    requires a <= b
    ensures Pow2(a) <= Pow2(b)
    ensures a < b ==> 2 * Pow2(a) <= Pow2(b)
  {
    if a < b {
      Pow2Monotone(a, b - 1);
    }
  }

  lemma {:induction false} Pow2Add(a: nat, b: nat)
    ensures Pow2(a + b) == Pow2(a) * Pow2(b)
  {
    if b > 0 {
      Pow2Add(a, b - 1);
      assert Pow2(a + b) == 2 * Pow2(a + (b - 1));
      assert Pow2(b) == 2 * Pow2(b - 1);
    }
  }

  lemma Pow2Times32(k: nat)
    ensures Pow2(k + 5) == 32 * Pow2(k)
  {
    assert Pow2(k + 5) == 2 * Pow2(k + 4) == 4 * Pow2(k + 3);
    assert Pow2(k + 3) == 2 * Pow2(k + 2) == 4 * Pow2(k + 1);
    assert Pow2(k + 1) == 2 * Pow2(k);
  }

  lemma MulLe(a: nat, b: nat, w: nat, w': nat)
    requires a <= b && w <= w'
    ensures a * w <= b * w'
    ensures (a + 1) * w == a * w + w
  {
  }

  lemma Pow2Square(k: nat, w: nat)
    requires Pow2(k) == w
    ensures Pow2(2 * k) == w * w
  {
    Pow2Add(k, k);
  }

  lemma PowersOfTwo()
    ensures Pow2(1) == 2 && Pow2(2) == 4 && Pow2(3) == 8 && Pow2(4) == 16
    ensures Pow2(8) == 0x100 && Pow2(16) == 0x1_0000 && Pow2(32) == 0x1_0000_0000 && Pow2(64) == 0x1_0000_0000_0000_0000
  {
    assert Pow2(1) == 2 && Pow2(2) == 4 && Pow2(3) == 8 && Pow2(4) == 16;
    Pow2Square(4, 16);
    Pow2Square(8, 0x100);
    Pow2Square(16, 0x1_0000);
    Pow2Square(32, 0x1_0000_0000);
  }

  /** Dividing twice. */
  lemma DivDiv(x: nat, a: nat, b: nat)
    requires a > 0 && b > 0
    ensures a * b > 0 && x / a / b == x / (a * b)
  {
    var q, r := x / a, x % a;
    TwoDigits(x, a, b, q / b, q % b, r);
  }

  lemma TwoDigits(x: nat, a: nat, b: nat, p: nat, s: nat, r: nat)
    requires a > 0 && b > 0 && x == (p * b + s) * a + r && s < b && r < a
    ensures a * b > 0 && x / (a * b) == p
  {
    Regroup(p, b, s, a);
    MulOrder(s, b, a);
    Positive(b, a);
    QuotientIs(x, a * b, p, s * a + r);
  }

  lemma QuotientIs(n: nat, d: nat, q: nat, r: nat)
    requires d > 0 && n == q * d + r && r < d
    ensures n / d == q
  {
    DivModUnique(n, d, q, r);
  }

  lemma Regroup(p: nat, b: nat, s: nat, a: nat)
    ensures (p * b + s) * a == p * (a * b) + s * a
  {
    assert (p * b + s) * a == (p * b) * a + s * a;
    assert (p * b) * a == p * (b * a);
  }

  /** The lowest bit and the rest of a remainder. */
  lemma ModStep(x: nat, m: nat)
    requires m > 0
    ensures x % (2 * m) == x % 2 + 2 * (x / 2 % m)
  {
    var h, l := x / 2, x % 2;
    var q, r := h / m, h % m;
    assert h == q * m + r && x == 2 * h + l;
    Doubled(q, m);
    RemainderIs(x, 2 * m, q, 2 * r + l);
  }

  lemma RemainderIs(n: nat, d: nat, q: nat, r: nat)
    requires d > 0 && n == q * d + r && r < d
    ensures n % d == r
  {
    DivModUnique(n, d, q, r);
  }

  lemma Doubled(w: nat, x: nat)
    ensures 2 * w * x == 2 * (w * x) == w * (2 * x)
  {
  }

  lemma Small(x: nat, m: nat)
    requires x < m
    ensures x % m == x
  {
  }
}
