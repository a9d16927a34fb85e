/** The few facts about products and quotients of variables that the id layout and the codecs need. */
module Arithmetic {

  lemma MulLe(x: int, y: int, p: nat)
    requires x <= y
    ensures x * p <= y * p
  {
  }

  lemma DivModDef(a: int, p: nat)
    requires p > 0
    ensures a == (a / p) * p + a % p && 0 <= a % p < p
  {
  }

  lemma QuotientUnique(p: nat, q: int, r: int, b: int, c: int)
    requires 0 <= r < p && 0 <= c < p && q * p + r == b * p + c
    ensures q == b && r == c
  {
    if q > b {
      MulLe(b + 1, q, p);
    } else if q < b {
      MulLe(q + 1, b, p);
    }
  }

  lemma DivNonNegative(a: nat, p: nat)
    requires p > 0
    ensures a / p >= 0
  {
    DivModDef(a, p);
    if a / p < 0 {
      MulLe(a / p, -1, p);
    }
  }

  lemma DivModOf(p: nat, b: int, c: int)
    requires 0 <= c < p
    ensures (b * p + c) / p == b && (b * p + c) % p == c
  {
    DivModDef(b * p + c, p);
    QuotientUnique(p, (b * p + c) / p, (b * p + c) % p, b, c);
  }

  predicate Multiple(x: nat, p: nat) {
    p > 0 && x % p == 0
  }

  lemma MultipleStep(x: nat, p: nat)
    requires Multiple(x, p) && p <= x
    ensures Multiple(x - p, p)
  {
    DivModDef(x, p);
    assert (x / p - 1) * p == (x / p) * p - p;
    DivModOf(p, x / p - 1, 0);
  }

  /** The only multiple below `p` is zero. */
  lemma SmallMultiple(x: nat, p: nat)
    requires x < p
    ensures Multiple(x, p) <==> x == 0
  {
    DivModOf(p, 0, x);
  }

  lemma ModAdd(a: nat, b: nat, p: nat)
    requires p > 0
    ensures (a % p + b) % p == (a + b) % p
  {
    var v := a % p + b;
    DivModDef(a, p);
    DivModDef(v, p);
    assert a + b == (a / p + v / p) * p + v % p;
    DivModOf(p, a / p + v / p, v % p);
  }

  function Pow(b: nat, n: nat): (r: nat)
    ensures b > 0 ==> r > 0
  {
    if n == 0 then 1 else b * Pow(b, n - 1)
  }

  lemma DivDiv(n: nat, b: nat, p: nat)
    requires b > 0 && p > 0
    ensures b * p > 0 && (n / b) / p == n / (b * p)
  {
    var q, r := n / b, n % b;
    DivModDef(n, b);
    DivNonNegative(n, b);
    var s, t := q / p, q % p;
    DivModDef(q, p);
    assert n == s * (b * p) + (t * b + r);
    MulLe(t + 1, p, b);
    assert (t + 1) * b == t * b + b && p * b == b * p;
    DivModOf(b * p, s, t * b + r);
  }

  /** The digit of `n` with weight `b` to the power `i`. */
  function Digit(b: nat, n: nat, i: nat): nat
    requires b > 0
    decreases i
  {
    DivNonNegative(n, b);
    if i == 0 then n % b else Digit(b, n / b, i - 1)
  }

  function Weighed(b: nat, n: nat, p: nat): int
    requires b > 0 && p > 0
  {
    (n / p) % b
  }

  lemma WeighedStep(b: nat, n: nat, p: nat)
    requires b > 0 && p > 0
    ensures n / b >= 0 && b * p > 0 && Weighed(b, n / b, p) == Weighed(b, n, b * p)
  {
    DivNonNegative(n, b);
    DivDiv(n, b, p);
  }

  lemma WeighedUnit(b: nat, n: nat)
    requires b > 0
    ensures Weighed(b, n, 1) == n % b
  {
  }

  lemma {:induction false} DigitIs(b: nat, n: nat, i: nat)
    requires b > 0
    ensures Pow(b, i) > 0 && Digit(b, n, i) == Weighed(b, n, Pow(b, i))
    decreases i
  {
    hide Weighed;
    if i == 0 {
      WeighedUnit(b, n);
    } else {
      WeighedStep(b, n, Pow(b, i - 1));
      DigitIs(b, n / b, i - 1);
    }
  }

  const TWO64: nat := 0x1_0000_0000_0000_0000

  lemma Pow256()
    ensures Pow(256, 4) == 0x1_0000_0000 && Pow(256, 8) == TWO64
  {
    assert Pow(256, 2) == 0x1_0000 by { assert Pow(256, 1) == 256; }
    assert Pow(256, 4) == 0x1_0000_0000 by { assert Pow(256, 3) == 0x100_0000; }
    assert Pow(256, 6) == 0x1_0000_0000_0000 by { assert Pow(256, 5) == 0x100_0000_0000; }
    assert Pow(256, 8) == TWO64 by { assert Pow(256, 7) == 0x100_0000_0000_0000; }
  }
}
