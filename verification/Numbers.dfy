/** Powers and division facts used by the decimal formats. */
module Numbers {

  function Abs(m: int): nat {
    if m < 0 then -m else m
  }

  function Pow10(k: nat): nat {
    if k == 0 then 1 else 10 * Pow10(k - 1)
  }

  function Pow256(k: nat): nat {
    if k == 0 then 1 else 256 * Pow256(k - 1)
  }

  lemma {:induction false} Pow256Positive(k: nat)
    ensures Pow256(k) > 0
  {
    if k > 0 {
      Pow256Positive(k - 1);
    }
  }

  lemma Pow256Step(k: nat)
    requires k > 0
    ensures Pow256(k) == 256 * Pow256(k - 1)
  {
  }

  /** Are `m * 10^e` and `n * 10^f` the same number? */
  predicate SameNumber(m: int, e: int, n: int, f: int) {
    if e >= f then m * Pow10(e - f) == n else m == n * Pow10(f - e)
  }

  lemma Pow256Even(k: nat)
    requires k > 0
    ensures Pow256(k) % 2 == 0
  {
    var half := 128 * Pow256(k - 1);
    assert Pow256(k) == 2 * half;
    hide Pow256;
  }

  lemma NegativeQuotient(v: int)
    ensures v / 256 < 0 <==> v < 0
  {
  }

  lemma {:induction false} Pow10Sum(a: nat, b: nat)
    ensures Pow10(a + b) == Pow10(a) * Pow10(b) && Pow10(a) > 0
  {
    if a > 0 {
      Pow10Sum(a - 1, b);
      assert Pow10(a + b) == 10 * Pow10(a - 1 + b) && Pow10(a) == 10 * Pow10(a - 1);
      hide Pow10;
      Regroup(10, Pow10(a - 1), Pow10(b));
    } else {
      assert Pow10(0) == 1;
    }
  }

  lemma Regroup(x: int, y: int, z: int)
    ensures x * (y * z) == (x * y) * z
  {
  }

  lemma Pow256Values()
    ensures Pow256(1) == 0x100 && Pow256(2) == 0x1_0000 && Pow256(4) == 0x1_0000_0000 && Pow256(8) == 0x1_0000_0000_0000_0000
    ensures Pow256(11) == 0x100_0000_0000_0000_0000_0000 && Pow256(12) == 0x1_0000_0000_0000_0000_0000_0000
    ensures Pow256(14) == 0x1_0000_0000_0000_0000_0000_0000_0000
    ensures Pow256(15) == 0x100_0000_0000_0000_0000_0000_0000_0000
  {
  }

  lemma DivisionIsUnique(n: int, d: int, q: int, r: int)
    requires d > 0 && n == d * q + r && 0 <= r < d
    ensures n / d == q && n % d == r
  {
    var a, b := n / d, n % d;
    assert n == d * a + b;
    assert d * (a - q) == r - b;
    assert a - q >= 1 ==> d * (a - q) >= d;
    assert a - q <= -1 ==> d * (a - q) <= -d;
  }

  lemma DivTwice(n: int, d: nat, e: nat)
    requires d > 0 && e > 0
    ensures d * e > 0 && n / (d * e) == n / d / e
  {
    ModTwice(n, d, e);
  }

  lemma ModTwice(n: int, d: nat, e: nat)
    requires d > 0 && e > 0
    ensures d * e > 0 && n % (d * e) == n % d + d * (n / d % e) && n / (d * e) == n / d / e
  {
    var q, r := n / d, n % d;
    var a, b := q / e, q % e;
    TwoDigits(d, e, a, b, r);
    assert n == (d * e) * a + (d * b + r);
    DivisionIsUnique(n, d * e, a, d * b + r);
  }

  lemma TwoDigits(d: nat, e: nat, a: int, b: nat, r: nat)
    requires r < d && b < e
    ensures d * e > 0
    ensures d * (e * a + b) + r == (d * e) * a + (d * b + r)
    ensures d * b + r < d * e
  {
    Regroup(d, e, a);
    assert d * (e * a + b) == d * (e * a) + d * b;
    assert d * b <= d * (e - 1) == d * e - d;
  }

  lemma ShiftLess(n: nat, p: nat)
    ensures n / 256 < p <==> n < 256 * p
  {
  }

  /** A signed bound on the quotient is one on the number. */
  lemma ScaleSigned(v: int, p: nat)
    requires p % 2 == 0
    ensures -(p as int) <= 2 * (v / 256) < p <==> -((256 * p) as int) <= 2 * v < 256 * p
  {
    var q, r := v / 256, v % 256;
    assert v == 256 * q + r && 0 <= r < 256;
    assert p == 2 * (p / 2);
  }

  lemma ZeroDiv(d: nat)
    requires d > 0
    ensures 0 / d == 0
  {
  }

  lemma Cancel(a: int, b: int, p: nat, q: nat)
    requires q > 0
    ensures a * q == b * (q * p) <==> a == b * p
  {
  }

  /** Putting a digit back keeps bounds in units of the last place. */
  lemma ScaleBounds(n: nat, a: nat, p: nat)
    requires a * p <= n / 10 < (a + 1) * p
    ensures a * (10 * p) <= n < (a + 1) * (10 * p)
  {
  }

  lemma MultipleOfTen(m: int, k: nat)
    requires k > 0
    ensures Abs(m * Pow10(k)) % 10 == 0
  {
    var p := Pow10(k - 1);
    assert m * (10 * p) == 10 * (m * p);
  }
}
