/** Fixed-width little-endian integers, as the `byteorder` crate reads and writes them. */
module LittleEndian {
  import opened Unicode
  import opened Numbers

  /** The low `k` bytes of `n`; for a negative number, of its two's complement. */
  function Digits(n: int, k: nat): (b: seq<byte>)
    ensures |b| == k
    decreases k
  {
    if k == 0 then [] else [n % 256] + Digits(n / 256, k - 1)
  }

  /** The unsigned value. */
  function LeValue(b: seq<byte>): nat {
    if b == [] then 0 else b[0] + 256 * LeValue(b[1..])
  }

  /** The signed value. */
  function SignedValue(b: seq<byte>): int {
    if 2 * LeValue(b) < Pow256(|b|) then LeValue(b) else LeValue(b) - Pow256(|b|)
  }

  lemma {:induction false} LeValueOfDigits(n: int, k: nat)
    ensures Pow256(k) > 0 && LeValue(Digits(n, k)) == n % Pow256(k)
    decreases k
  {
    Pow256Positive(k);
    if k > 0 {
      LeValueOfDigits(n / 256, k - 1);
      assert Digits(n, k)[1..] == Digits(n / 256, k - 1);
      ModTwice(n, 256, Pow256(k - 1));
    }
  }

  lemma UnsignedRoundTrip(n: nat, k: nat)
    requires n < Pow256(k)
    ensures LeValue(Digits(n, k)) == n
  {
  }

  lemma SignedRoundTrip(v: int, k: nat)
    requires FitsSigned(v, k)
    ensures SignedValue(Digits(v, k)) == v
  {
    LeValueOfDigits(v, k);
    if v >= 0 {
      DivisionIsUnique(v, Pow256(k), 0, v);
    } else {
      DivisionIsUnique(v, Pow256(k), -1, v + Pow256(k));
    }
  }

  lemma {:induction false} DigitAt(n: int, k: nat, i: nat)
    requires i < k
    ensures Pow256(i) > 0 && Digits(n, k)[i] == n / Pow256(i) % 256
    decreases k
  {
    Pow256Positive(i);
    if i > 0 {
      Pow256Positive(i - 1);
      DigitAt(n / 256, k - 1, i - 1);
      DivTwice(n, 256, Pow256(i - 1));
    } else {
      assert Pow256(0) == 1;
    }
  }

  lemma {:induction false} LeValueAppendZero(b: seq<byte>)
    ensures LeValue(b + [0]) == LeValue(b)
  {
    if b == [] {
      assert (b + [0])[1..] == [];
    } else {
      assert (b + [0])[1..] == b[1..] + [0];
      LeValueAppendZero(b[1..]);
    }
  }

  lemma {:induction false} LeValueConcat(a: seq<byte>, b: seq<byte>)
    ensures LeValue(a + b) == LeValue(a) + Pow256(|a|) * LeValue(b)
  {
    if a == [] {
      assert a + b == b;
      assert Pow256(0) == 1;
    } else {
      assert (a + b)[1..] == a[1..] + b;
      LeValueConcat(a[1..], b);
      Pow256Step(|a|);
      hide LeValue, Pow256;
      Regroup(256, Pow256(|a| - 1), LeValue(b));
    }
  }

  lemma {:induction false} LeValueBound(b: seq<byte>)
    ensures LeValue(b) < Pow256(|b|)
  {
    if b != [] {
      LeValueBound(b[1..]);
    }
  }

  /** Does `v` fit into `k` bytes with sign? */
  predicate FitsSigned(v: int, k: nat) {
    -(Pow256(k) as int) <= 2 * v < Pow256(k)
  }

  lemma DigitsStep(v: int, k: nat)
    requires k > 0
    ensures Digits(v, k) == [v % 256] + Digits(v / 256, k - 1)
  {
  }

  lemma FitsShorter(v: int, k: nat)
    requires k > 1 && FitsSigned(v, k)
    ensures FitsSigned(v / 256, k - 1) && (v / 256 < 0 <==> v < 0)
  {
    Pow256Step(k);
    Pow256Even(k - 1);
    hide Pow256;
    ScaleSigned(v, Pow256(k - 1));
    NegativeQuotient(v);
  }

  lemma FitsLonger(v: int, k: nat)
    requires FitsSigned(v, k)
    ensures FitsSigned(v, k + 1)
  {
    Pow256Step(k + 1);
    hide Pow256;
  }

  /** One more byte: the sign is extended. */
  lemma {:induction false} SignExtension(v: int, k: nat)
    requires k > 0 && FitsSigned(v, k)
    ensures Digits(v, k + 1) == Digits(v, k) + [if v < 0 then 255 else 0]
    ensures (Digits(v, k)[k - 1] >= 128) <==> v < 0
    ensures FitsSigned(v, k + 1)
    decreases k
  {
    if k == 1 {
      OneByteExtension(v);
    } else {
      var q := v / 256;
      DigitsStep(v, k);
      DigitsStep(v, k + 1);
      FitsShorter(v, k);
      FitsLonger(v, k);
      hide FitsSigned, Digits, Pow256;
      SignExtension(q, k - 1);
      assert [v % 256] + (Digits(q, k - 1) + [if v < 0 then 255 else 0]) == Digits(v, k) + [if v < 0 then 255 else 0];
    }
  }

  lemma OneByteExtension(v: int)
    requires FitsSigned(v, 1)
    ensures -128 <= v < 128
    ensures Digits(v, 2) == Digits(v, 1) + [if v < 0 then 255 else 0]
    ensures (Digits(v, 1)[0] >= 128) <==> v < 0
    ensures FitsSigned(v, 2)
  {
    Pow256Values();
    hide Pow256;
    assert -128 <= v < 128 && v / 256 == (if v < 0 then -1 else 0);
    DigitsStep(v, 1);
    DigitsStep(v, 2);
    DigitsStep(v / 256, 1);
    assert v % 256 == if v < 0 then v + 256 else v;
  }
}
