/** The fixed-width decimal formats of src/types_impl/decimal.rs; values are mantissas at the column's scale. */
module FixedDecimal {
  import opened Wrappers
  import opened Unicode
  import opened Numbers
  import opened LittleEndian

  /** `BigInt::to_signed_bytes_le`: two's complement in as few bytes as possible. */
  function SignedBytes(v: int): (b: seq<byte>)
    ensures |b| > 0
    decreases Abs(v)
  {
    if -128 <= v < 128 then [v % 256] else [v % 256] + SignedBytes(v / 256)
  }

  lemma {:induction false} SignedBytesAreDigits(v: int)
    ensures SignedBytes(v) == Digits(v, |SignedBytes(v)|)
    decreases Abs(v)
  {
    if -128 <= v < 128 {
      assert Digits(v / 256, 0) == [];
    } else {
      SignedBytesAreDigits(v / 256);
    }
  }

  lemma {:induction false} SignedBytesLength(v: int, k: nat)
    requires k > 0
    ensures |SignedBytes(v)| <= k <==> FitsSigned(v, k)
    decreases k
  {
    Pow256Step(k);
    if k == 1 {
      assert Pow256(0) == 1;
    } else {
      Pow256Positive(k - 2);
      Pow256Step(k - 1);
      hide Pow256;
      if -128 <= v < 128 {
        assert FitsSigned(v, k);
      } else {
        SignedBytesLength(v / 256, k - 1);
        ScaleSigned(v, Pow256(k - 1));
      }
    }
  }

  function Fixed12Bytes(bigint: int): seq<byte> {
    if FitsSigned(bigint, 12) then Digits(bigint, 12) else SignedBytes(bigint)
  }

  lemma Fixed12Size(bigint: int)
    ensures |Fixed12Bytes(bigint)| == 12 <==> FitsSigned(bigint, 12)
    ensures !FitsSigned(bigint, 12) ==> |Fixed12Bytes(bigint)| > 12
  {
    SignedBytesLength(bigint, 12);
  }

  /** FIXED12: sign extension to twelve bytes; a value that needs more bytes is written as it is. */
  method EmitFixed12(bigint: int) returns (bytes: seq<byte>)
    ensures bytes == Fixed12Bytes(bigint)
    ensures |bytes| == 12 <==> FitsSigned(bigint, 12)
    ensures SignedValue(bytes) == bigint
  {
    hide Digits, Pow256, FitsSigned, SignedBytes, SignedValue;
    bytes := SignedBytes(bigint);
    SignedBytesAreDigits(bigint);
    SignedBytesLength(bigint, 12);
    var l := |bytes|;
    SignedBytesLength(bigint, l);
    if l < 12 {
      SignExtension(bigint, l);
      var filler := if bytes[l - 1] < 128 then 0 else 255;
      for i := l to 12
        invariant bytes == Digits(bigint, i) && FitsSigned(bigint, i)
      {
        SignExtension(bigint, i);
        bytes := bytes + [filler];
      }
    }
    SignedRoundTrip(bigint, |bytes|);
  }

  /** FIXED8 and FIXED16: written in `width` bytes, or refused. */
  method EmitFixed(bigint: int, width: nat) returns (r: Result<seq<byte>>)
    ensures r.Ok? <==> FitsSigned(bigint, width)
    ensures r.Ok? ==> |r.value| == width && SignedValue(r.value) == bigint
  {
    if !FitsSigned(bigint, width) {
      return Err(IoError);
    }
    SignedRoundTrip(bigint, width);
    return Ok(Digits(bigint, width));
  }
}
