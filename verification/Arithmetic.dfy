/** Division facts and small functions on natural numbers. */
module Arithmetic {

  function Min(a: nat, b: nat): nat { if a < b then a else b }

  /** Division rounding up, as `Math.ceil(a / b)`. */
  function CeilDiv(a: nat, b: nat): nat
    requires b > 0
  {
    (a + b - 1) / b
  }

  lemma CeilDivCovers(a: nat, b: nat)
    requires b > 0
    ensures b * CeilDiv(a, b) >= a
    ensures a > 0 ==> b * (CeilDiv(a, b) - 1) < a
  {
    var q, r := (a + b - 1) / b, (a + b - 1) % b;
    assert a + b - 1 == b * q + r;
    assert b * (q - 1) == b * q - b;
  }

  lemma Multiples(a: nat, b: nat, d: nat)
    requires a <= b
    ensures a * d <= b * d && a * d == (a - 1) * d + d
  {
    assert b * d == a * d + (b - a) * d;
  }

  lemma DivisionIsUnique(x: nat, d: nat, q: nat, r: nat)
    requires d > 0 && x == q * d + r && r < d
    ensures x / d == q && x % d == r
  {
    var q', r' := x / d, x % d;
    assert x == q' * d + r';
    if q > q' {
      Multiples(q' + 1, q, d);
    } else if q < q' {
      Multiples(q + 1, q', d);
    }
  }

  lemma SegmentInRange(q: nat, r: nat, parts: nat, size: nat)
    requires q * size + r < parts * size
    ensures q < parts
  {
    if q >= parts {
      Multiples(parts, q, size);
    }
  }

  function Pow2(p: nat): (r: nat)
    ensures r > 0
  {
    if p == 0 then 1 else 2 * Pow2(p - 1)
  }

  /** The exponent of 2 in `m`. */
  function Twos(m: nat): nat
    requires m > 0
  {
    if m % 2 == 1 then 0 else 1 + Twos(m / 2)
  }

  lemma {:induction false} TwosDivide(m: nat, p: nat)
    requires m > 0
    ensures p <= Twos(m) <==> m % Pow2(p) == 0
  {
    if p > 0 {
      var h := Pow2(p - 1);
      if m % 2 == 0 {
        TwosDivide(m / 2, p - 1);
        assert m == 2 * (m / 2);
        DoubleMod(m / 2, h);
      } else {
        OddMod(m, h);
      }
    }
  }

  lemma DoubleMod(x: nat, h: nat)
    requires h > 0
    ensures (2 * x) % (2 * h) == 2 * (x % h)
  {
    var q, r := x / h, x % h;
    assert x == q * h + r;
    assert 2 * x == q * (2 * h) + 2 * r;
    DivisionIsUnique(2 * x, 2 * h, q, 2 * r);
  }

  lemma OddMod(m: nat, h: nat)
    requires h > 0 && m % 2 == 1
    ensures m % (2 * h) != 0
  {
    var q := m / (2 * h);
    assert m == q * (2 * h) + m % (2 * h);
    assert q * (2 * h) == 2 * (q * h);
  }

  lemma DoubleMul(s: nat, h: nat)
    ensures (2 * s) * h == s * (2 * h)
    ensures (2 * s + 1) * h == s * (2 * h) + h
  {
  }

  lemma HalveQuotient(m: nat, h: nat)
    requires h > 0
    ensures m / (2 * h) == (m / h) / 2
  {
    var q, r := m / h, m % h;
    var s := q / 2;
    assert m == q * h + r;
    DoubleMul(s, h);
    if q % 2 == 0 {
      assert q == 2 * s;
      DivisionIsUnique(m, 2 * h, s, r);
    } else {
      assert q == 2 * s + 1;
      DivisionIsUnique(m, 2 * h, s, h + r);
    }
  }

  /** Halving after dividing by a power of 2, and before it. */
  lemma HalveLast(m: nat, p: nat)
    ensures m / Pow2(p + 1) == (m / Pow2(p)) / 2
  {
    HalveQuotient(m, Pow2(p));
  }

  lemma {:induction false} HalveFirst(n: nat, p: nat)
    ensures n / Pow2(p + 1) == (n / 2) / Pow2(p)
  {
    if p == 0 {
      assert Pow2(1) == 2 * Pow2(0) == 2;
    } else {
      HalveFirst(n, p - 1);
      HalveLast(n, p);
      HalveLast(n / 2, p - 1);
    }
  }

  lemma ExactQuotient(m: nat, h: nat) returns (q: nat)
    requires h > 0 && m > 0 && m % h == 0
    ensures q == m / h && q > 0 && m == q * h
  {
    q := m / h;
    assert m == q * h + m % h;
  }

  lemma DoubleQuotient(m: nat, h: nat, q: nat)
    requires h > 0 && m == q * h
    ensures m % (2 * h) == 0 <==> q % 2 == 0
  {
    var s := q / 2;
    DoubleMul(s, h);
    if q % 2 == 0 {
      assert q == 2 * s;
      DivisionIsUnique(m, 2 * h, s, 0);
    } else {
      assert q == 2 * s + 1;
      DivisionIsUnique(m, 2 * h, s, h);
    }
  }
}
