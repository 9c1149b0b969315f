/** The DECIMAL wire format of src/types_impl/hdb_decimal.rs. */
module HdbDecimal {
  import opened Wrappers
  import opened Unicode
  import opened Numbers
  import opened LittleEndian

  const TWO_TO_112: nat := 0x1_0000_0000_0000_0000_0000_0000_0000
  const TWO_TO_113: nat := 0x2_0000_0000_0000_0000_0000_0000_0000

  // ---- Magnitude bytes, as BigInt::to_bytes_le gives them ----

  function MagnitudeBytes(n: nat): (b: seq<byte>)
    ensures |b| > 0
  {
    if n < 256 then [n] else [n % 256] + MagnitudeBytes(n / 256)
  }

  /** The code's test on the magnitude bytes: `(l > 15) || ((l == 15) && (mantissa[14] & 0b1111_1110) != 0)`. */
  predicate TooManyBits(m: int) {
    var mantissa := MagnitudeBytes(Abs(m));
    |mantissa| > 15 || (|mantissa| == 15 && mantissa[14] >= 2)
  }

  lemma {:induction false} MagnitudeLength(n: nat, k: nat)
    requires k > 0
    ensures |MagnitudeBytes(n)| <= k <==> n < Pow256(k)
  {
    if k == 1 {
      assert Pow256(1) == 256 * Pow256(0);
    } else if n >= 256 {
      MagnitudeLength(n / 256, k - 1);
      ShiftLess(n, Pow256(k - 1));
    } else {
      Pow256Positive(k - 1);
    }
  }

  lemma {:induction false} MagnitudeAt(n: nat, i: nat)
    ensures Pow256(i) > 0
    ensures i < |MagnitudeBytes(n)| ==> MagnitudeBytes(n)[i] == n / Pow256(i) % 256
    ensures i >= |MagnitudeBytes(n)| ==> n / Pow256(i) % 256 == 0
  {
    Pow256Positive(i);
    if i > 0 {
      Pow256Positive(i - 1);
      DivTwice(n, 256, Pow256(i - 1));
      if n < 256 {
        assert n / 256 == 0;
        ZeroDiv(Pow256(i - 1));
      } else {
        MagnitudeAt(n / 256, i - 1);
      }
    }
  }

  /** The test says what the comment in the code says: more than 113 bits. */
  lemma TooManyBitsMeans(m: int)
    ensures TooManyBits(m) <==> Abs(m) >= TWO_TO_113
  {
    var n := Abs(m);
    Pow256Values();
    MagnitudeLength(n, 15);
    MagnitudeLength(n, 14);
    MagnitudeAt(n, 14);
  }

  // ---- Normalization ----

  /** Division by ten as BigInt does it, towards zero. */
  function DivTen(m: int): (q: int)
    ensures Abs(q) == Abs(m) / 10
    ensures m > 0 ==> q >= 0
    ensures m < 0 ==> q <= 0
    ensures m == 0 ==> q == 0
  {
    if m >= 0 then m / 10 else -((-m) / 10)
  }

  /** The first loop: the mantissa without trailing zeros, and how many there were. */
  function StripTens(m: int): (r: (int, nat))
    decreases Abs(m)
  {
    if m != 0 && Abs(m) % 10 == 0 then
      var r := StripTens(DivTen(m));
      (r.0, r.1 + 1)
    else (m, 0)
  }

  /** The second loop: the mantissa cut to 113 bits, and how many digits were cut off. */
  function CutDigits(m: int): (r: (int, nat))
    decreases Abs(m)
  {
    if Abs(m) >= TWO_TO_113 then
      var r := CutDigits(DivTen(m));
      (r.0, r.1 + 1)
    else (m, 0)
  }

  /** Stripping is exact. */
  lemma {:induction false} StripTensIsExact(m: int)
    ensures var (s, z) := StripTens(m);
            && m == s * Pow10(z)
            && (s == 0 <==> m == 0)
            && (s == 0 ==> z == 0)
            && (s != 0 ==> Abs(s) % 10 != 0)
    decreases Abs(m)
  {
    var (s, z) := StripTens(m);
    if z > 0 {
      var q := DivTen(m);
      assert StripTens(q) == (s, z - 1) && Pow10(z) == 10 * Pow10(z - 1);
      StripTensIsExact(q);
      hide StripTens, Pow10;
      assert m == 10 * q;
      Regroup(s, 10, Pow10(z - 1));
      Regroup(10, s, Pow10(z - 1));
    } else {
      assert Pow10(0) == 1;
    }
  }

  /** `k` is the least number of decimal digits to cut off `n` that leaves less than 2^113 units of the last kept digit. */
  ghost predicate CutBy(n: nat, k: nat) {
    n < TWO_TO_113 * Pow10(k) && (k > 0 ==> TWO_TO_113 * Pow10(k - 1) <= n)
  }

  lemma {:induction false} Pow10Monotone(i: nat, j: nat)
    requires i <= j
    ensures Pow10(i) <= Pow10(j)
  {
    if i < j {
      Pow10Monotone(i, j - 1);
      Pow10Sum(j - 1, 0);
    }
  }

  /** There is only one such number. */
  lemma CutByIsUnique(n: nat, i: nat, j: nat)
    requires CutBy(n, i) && CutBy(n, j)
    ensures i == j
  {
    hide Pow10;
    if i < j {
      Pow10Monotone(i, j - 1);
    } else if j < i {
      Pow10Monotone(j, i - 1);
    }
  }

  /** Cutting once more. */
  lemma CutByStep(n: nat, k: nat)
    requires n >= TWO_TO_113 && CutBy(n / 10, k)
    ensures CutBy(n, k + 1)
  {
    assert Pow10(k + 1) == 10 * Pow10(k);
    assert k > 0 ==> Pow10(k) == 10 * Pow10(k - 1);
    assert k == 0 ==> Pow10(k) == 1;
  }

  /** Cutting loses less than one unit of the last kept digit, towards zero, and cuts as few digits as possible. */
  lemma {:induction false} CutDigitsLoss(m: int)
    ensures var (c, k) := CutDigits(m);
            && Abs(c) < TWO_TO_113
            && Abs(c) * Pow10(k) <= Abs(m) < (Abs(c) + 1) * Pow10(k)
            && (m >= 0 ==> c >= 0) && (m <= 0 ==> c <= 0)
            && (k == 0 <==> Abs(m) < TWO_TO_113)
            && (k == 0 ==> c == m)
            && (k > 0 ==> Abs(c) >= TWO_TO_113 / 10)
            && CutBy(Abs(m), k)
    decreases Abs(m)
  {
    var (c, k) := CutDigits(m);
    if k > 0 {
      CutDigitsLoss(DivTen(m));
      CutByStep(Abs(m), k - 1);
      ScaleBounds(Abs(m), Abs(c), Pow10(k - 1));
    } else {
      assert Pow10(0) == 1;
    }
  }

  // ---- The packed form ----

  type Raw = b: seq<byte> | |b| == 16 witness seq(16, _ => 0)

  /** What `from_bigdecimal` leaves in `raw`: bytes 14 and 15 are overwritten by exponent and sign. */
  function Packed(mantissa: int, exponent: int): Raw
    requires -6143 <= exponent <= 6144
  {
    var e := (exponent + 6176) * 2;
    Digits(Abs(mantissa), 14) + [e % 256, e / 256 + (if mantissa < 0 then 128 else 0)]
  }

  /** The outcome of encoding the number `bigint * 10^(-negExponent)`. */
  function Encoded(bigint: int, negExponent: int): Result<Raw> {
    var (s, z) := StripTens(bigint);
    var (c, k) := CutDigits(s);
    var exponent := -negExponent + z + k;
    if -6143 <= exponent <= 6144 then Ok(Packed(c, exponent)) else Err(IoError)
  }

  /** `into_elements`: sign, mantissa and exponent. */
  function IntoElements(raw: Raw): (r: (bool, nat, int)) {
    var isNegative := raw[15] >= 128;
    var r15 := raw[15] % 128;
    var exponent := (raw[14] as int + 256 * r15 as int) / 2 - 6176;
    var r14 := raw[14] % 2;
    (isNegative, LeValue(raw[..14] + [r14]), exponent)
  }

  /** `into_bigdecimal`, as mantissa and exponent. */
  function IntoBigdecimal(raw: Raw): (int, int) {
    var (isNegative, mantissa, exponent) := IntoElements(raw);
    (if isNegative then -(mantissa as int) else mantissa, exponent)
  }

  /** The NULL test of `parse_hdb_decimal`. */
  predicate IsNull(raw: Raw) {
    raw[15] == 112 && forall i :: 0 <= i <= 14 ==> raw[i] == 0
  }

  /** The documented format: one little-endian number, with the exponent above the mantissa and the sign above it. */
  lemma ElementsMean(raw: Raw)
    ensures var (isNegative, mantissa, exponent) := IntoElements(raw);
            && mantissa < TWO_TO_113 && 0 <= exponent + 6176 < 0x4000
            && LeValue(raw) == mantissa + (exponent + 6176) * TWO_TO_113 +
                               (if isNegative then 0x8000_0000_0000_0000_0000_0000_0000_0000 else 0)
  {
    hide LeValue, Pow256;
    var low, r14, r15 := raw[..14], raw[14], raw[15];
    assert raw == low + [r14, r15];
    LeValueConcat(low, [r14, r15]);
    LeValueConcat(low, [r14 % 2]);
    LeValueBound(low);
    ShortValues(r14, r15);
    ShortValues(r14 % 2, 0);
    Pow256Values();
    ExponentBits(r14, r15);
  }

  lemma ShortValues(a: byte, b: byte)
    ensures LeValue([a]) == a && LeValue([a, b]) == a + 256 * b
  {
    assert [a, b][1..] == [b] && [b][1..] == [] && [a][1..] == [];
  }

  lemma ExponentBits(r14: byte, r15: byte)
    ensures (r14 as int + 256 * (r15 % 128) as int) / 2 == r14 / 2 + 128 * (r15 % 128)
    ensures r14 == 2 * (r14 / 2) + r14 % 2 && r15 == (if r15 >= 128 then 128 else 0) + r15 % 128
  {
    var low, high := r14 / 2, r15 % 128;
    assert r14 as int + 256 * high as int == 2 * (low + 128 * high) + r14 % 2;
  }

  /** NULL is exactly one of the patterns. */
  lemma NullPattern(raw: Raw)
    ensures IsNull(raw) <==> raw == seq(15, _ => 0) + [112]
  {
  }

  /** Unpacking gives back sign and exponent, but only 112 of the 113 bits of the mantissa. */
  lemma UnpackPacked(mantissa: int, exponent: int)
    requires -6143 <= exponent <= 6144
    ensures IntoElements(Packed(mantissa, exponent)) == (mantissa < 0, Abs(mantissa) % TWO_TO_112, exponent)
    ensures !IsNull(Packed(mantissa, exponent))
  {
    hide Digits, LeValue, Pow256;
    var raw := Packed(mantissa, exponent);
    var d := Digits(Abs(mantissa), 14);
    assert raw[..14] == d;
    assert raw[14] % 2 == 0 && raw[15] != 112;
    LeValueAppendZero(d);
    LeValueOfDigits(Abs(mantissa), 14);
    Pow256Values();
  }

  /** Cut to 113 bits, stored in 112: the stripped mantissa survives exactly if it has at most 112 bits. */
  lemma MantissaSurvives(s: int)
    requires s != 0 ==> Abs(s) % 10 != 0
    ensures var (c, k) := CutDigits(s);
            Abs(s) == Abs(c) % TWO_TO_112 * Pow10(k) <==> Abs(s) < TWO_TO_112
  {
    var (c, k) := CutDigits(s);
    CutDigitsLoss(s);
    if k == 0 {
      assert Pow10(0) == 1;
    } else {
      MultipleOfTen(Abs(c) % TWO_TO_112, k);
    }
  }

  /** The encoded number, read back, is the given one exactly if its digits without trailing zeros fit 112 bits. */
  lemma RoundTrip(m: int, e: int)
    ensures var (s, z) := StripTens(m);
            var (c, k) := CutDigits(s);
            -6143 <= e + z + k <= 6144 ==>
              var (m', e') := IntoBigdecimal(Packed(c, e + z + k));
              && e' - e == z + k
              && (m == m' * Pow10(z + k) <==> Abs(s) < TWO_TO_112)
  {
    hide Packed, IntoElements, CutDigits, StripTens, Pow10;
    var (s, z) := StripTens(m);
    var (c, k) := CutDigits(s);
    if -6143 <= e + z + k <= 6144 {
      StripTensIsExact(m);
      CutDigitsLoss(s);
      UnpackPacked(c, e + z + k);
      var m' := IntoBigdecimal(Packed(c, e + z + k)).0;
      Pow10Sum(z, k);
      Cancel(s, m', Pow10(k), Pow10(z));
      MantissaSurvives(s);
      SameSign(s, m', Pow10(k));
    }
  }

  lemma SameSign(s: int, m: int, p: nat)
    requires (s >= 0 ==> m >= 0) && (s <= 0 ==> m <= 0)
    ensures s == m * p <==> Abs(s) == Abs(m) * p
  {
  }

  /**
   * What a reader gets for the number `m * 10^e`: the cut digits modulo 2^112, with the sign and the
   * exponent that they have in it. It is the same number exactly if the digits without trailing zeros fit 112 bits.
   */
  ghost predicate ReadsBackAs(mantissa: int, exponent: int, m: int, e: int) {
    var (s, z) := StripTens(m);
    var (c, k) := CutDigits(s);
    && Abs(mantissa) == Abs(c) % TWO_TO_112 && (m >= 0 ==> mantissa >= 0) && (m <= 0 ==> mantissa <= 0)
    && exponent == e + z + k
    && (SameNumber(mantissa, exponent, m, e) <==> Abs(s) < TWO_TO_112)
  }

  /** When a number is accepted, and what is read back. */
  lemma EncodedMeans(bigint: int, negExponent: int)
    ensures var (s, z) := StripTens(bigint);
            var k := CutDigits(s).1;
            var r := Encoded(bigint, negExponent);
            && (r.Ok? <==> -6143 <= -negExponent + z + k <= 6144)
            && (r.Ok? ==>
                  var (mantissa, exponent) := IntoBigdecimal(r.value);
                  ReadsBackAs(mantissa, exponent, bigint, -negExponent) && !IsNull(r.value))
  {
    hide Packed, IntoElements, CutDigits, StripTens, Pow10, IsNull;
    var (s, z) := StripTens(bigint);
    var (c, k) := CutDigits(s);
    StripTensIsExact(bigint);
    CutDigitsLoss(s);
    RoundTrip(bigint, -negExponent);
    SignOfDigits(bigint, s, z);
    if -6143 <= -negExponent + z + k <= 6144 {
      UnpackPacked(c, -negExponent + z + k);
      assert SameSide(bigint, c);
    }
  }

  ghost predicate SameSide(m: int, c: int) {
    (m >= 0 ==> c >= 0) && (m <= 0 ==> c <= 0)
  }

  lemma SignOfDigits(m: int, s: int, z: nat)
    requires m == s * Pow10(z)
    ensures SameSide(m, s)
  {
    Pow10Sum(z, 0);
    hide Pow10;
  }

  /** The magnitude bytes, overwritten by exponent and sign, are the packed form. */
  lemma FillsPacked(m: int, exponent: int, raw: seq<byte>)
    requires -6143 <= exponent <= 6144 && |raw| == 16
    requires forall i :: 0 <= i < 14 ==>
               raw[i] == if i < |MagnitudeBytes(Abs(m))| then MagnitudeBytes(Abs(m))[i] else 0
    requires var e := (exponent + 6176) * 2;
             raw[14] == e % 256 && raw[15] == e / 256 + (if m < 0 then 128 else 0)
    ensures raw == Packed(m, exponent)
  {
    hide MagnitudeBytes, Digits, Pow256;
    forall i | 0 <= i < 14 ensures raw[i] == Digits(Abs(m), 14)[i] {
      DigitAt(Abs(m), 14, i);
      MagnitudeAt(Abs(m), i);
    }
  }

  /** The second half of `from_bigdecimal`: filling the bytes. */
  method Pack(m: int, exponent: int) returns (r: Raw)
    requires Abs(m) < TWO_TO_113 && -6143 <= exponent <= 6144
    ensures r == Packed(m, exponent)
  {
    TooManyBitsMeans(m);
    hide MagnitudeBytes, Digits, Packed;
    var mantissa := MagnitudeBytes(Abs(m));
    var raw := new byte[16](_ => 0);
    for i := 0 to |mantissa|
      invariant |mantissa| <= 15
      invariant forall j :: 0 <= j < i ==> raw[j] == mantissa[j]
      invariant forall j :: i <= j < 16 ==> raw[j] == 0
    {
      raw[i] := mantissa[i];
    }
    var biasedExponent := exponent + 6176;
    raw[14], raw[15] := biasedExponent * 2 % 256, biasedExponent * 2 / 256;
    if m < 0 {
      raw[15] := raw[15] + 128;   // the sign bit, which is still 0
    }
    FillsPacked(m, exponent, raw[..]);
    return raw[..];
  }

  /** `from_bigdecimal`, for the number `bigint * 10^(-negExponent)`. */
  method FromBigdecimal(bigint: int, negExponent: int) returns (r: Result<Raw>)
    ensures r == Encoded(bigint, negExponent)
    ensures var (s, z) := StripTens(bigint);
            var k := CutDigits(s).1;
            && (r.Ok? <==> -6143 <= -negExponent + z + k <= 6144)
            && (r.Ok? ==>
                  var (mantissa, exponent) := IntoBigdecimal(r.value);
                  ReadsBackAs(mantissa, exponent, bigint, -negExponent) && !IsNull(r.value))
  {
    EncodedMeans(bigint, negExponent);
    hide MagnitudeBytes, Digits, Packed, ReadsBackAs;
    var m, exponent := bigint, -negExponent;
    while m != 0 && Abs(m) % 10 == 0
      invariant StripTens(bigint) == (StripTens(m).0, StripTens(m).1 + (exponent + negExponent))
      invariant exponent + negExponent >= 0
      decreases Abs(m)
    {
      m := DivTen(m);
      exponent := exponent + 1;
    }
    ghost var s, e := m, exponent;
    while true
      invariant CutDigits(s) == (CutDigits(m).0, CutDigits(m).1 + (exponent - e))
      invariant exponent - e >= 0
      decreases Abs(m)
    {
      TooManyBitsMeans(m);
      if TooManyBits(m) {
        m := DivTen(m);
        exponent := exponent + 1;
      } else {
        break;
      }
    }
    if exponent < -6143 || exponent > 6144 {
      return Err(IoError);
    }
    var raw := Pack(m, exponent);
    return Ok(raw);
  }

  /** 2^112 + 1 passes both loops unchanged, and comes back as 1. */
  lemma BitLost()
    ensures var n := 0x1_0000_0000_0000_0000_0000_0000_0001;
            && StripTens(n) == (n, 0) && CutDigits(n) == (n, 0)
            && IntoElements(Packed(n, 0)) == (false, 1, 0)
  {
    hide Packed, IntoElements;
    UnpackPacked(0x1_0000_0000_0000_0000_0000_0000_0001, 0);
  }

  /** The second loop divides by the power of ten at once. */
  lemma CutIsDivision(m: int)
    ensures var (c, k) := CutDigits(m);
            Pow10(k) > 0 && Abs(c) == Abs(m) / Pow10(k)
  {
    hide CutDigits, Pow10;
    var (c, k) := CutDigits(m);
    CutDigitsLoss(m);
    Pow10Sum(k, 0);
    assert (Abs(c) + 1) * Pow10(k) == Abs(c) * Pow10(k) + Pow10(k);
    DivisionIsUnique(Abs(m), Pow10(k), Abs(c), Abs(m) - Abs(c) * Pow10(k));
  }

  /** The digits of a number without its trailing zeros are determined. */
  lemma {:induction false} StripTensOf(s: int, z: nat)
    requires Abs(s) % 10 != 0
    ensures StripTens(s * Pow10(z)) == (s, z)
  {
    if z == 0 {
      assert s * Pow10(0) == s;
    } else {
      var m := s * Pow10(z - 1);
      Regroup(s, 10, Pow10(z - 1));
      Regroup(10, s, Pow10(z - 1));
      assert s * Pow10(z) == 10 * m;
      StripTensOf(s, z - 1);
      Pow10Sum(z - 1, 0);
      assert m != 0;
      assert DivTen(10 * m) == m;
    }
  }

  /**
   * The mantissa that is sent for a number with the digits `s` and `z` trailing zeros is a multiple of ten exactly if
   * `k` digits must be cut off and the last one that is kept is a zero.
   */
  lemma TrailingZeroAfterCut(m: int, s: int, z: nat, k: nat)
    requires m == s * Pow10(z) && Abs(s) % 10 != 0 && CutBy(Abs(s), k)
    ensures Pow10(k) > 0 && StripTens(m) == (s, z) && CutDigits(s).1 == k
    ensures Abs(CutDigits(s).0) % 10 == 0 <==> k > 0 && Abs(s) / Pow10(k) % 10 == 0
  {
    hide CutDigits, StripTens, Pow10, CutBy;
    StripTensOf(s, z);
    CutDigitsLoss(s);
    CutByIsUnique(Abs(s), k, CutDigits(s).1);
    CutIsDivision(s);
    assert k == 0 ==> CutDigits(s).0 == s;
  }

  /** An instance: 2 * 10^34 + 1 is cut by one digit, and sent as 2 * 10^33. */
  lemma TrailingZeroExample()
    ensures var m := 20_000_000_000_000_000_000_000_000_000_000_001;
            StripTens(m) == (m, 0) && CutDigits(m).1 == 1 && Abs(CutDigits(m).0) % 10 == 0
  {
    var m := 20_000_000_000_000_000_000_000_000_000_000_001;
    assert Pow10(0) == 1 && Pow10(1) == 10 * Pow10(0);
    TrailingZeroAfterCut(m, m, 0, 1);
  }
}
