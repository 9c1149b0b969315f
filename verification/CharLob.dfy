/** What `CLobHandle` and `NCLobHandle` have in common: a CESU-8 buffer that is drained as UTF-8. */
module CharLob {
  import opened Wrappers
  import opened Unicode
  import opened Cesu8Util

  /**
   * The buffer starts on a character boundary, in front of the text `rest` that was not yet delivered, and
   * `tailLen` counts the bytes behind the last character boundary in it.
   */
  ghost predicate Buffers(cesu8: seq<byte>, tailLen: nat, rest: Text) {
    && cesu8 <= Cesu8(rest)
    && tailLen == BoundaryDistance(rest, |cesu8|)
  }

  /** The tail length can be subtracted from the buffer length, and is at most 5. */
  lemma TailIsSmall(cesu8: seq<byte>, tailLen: nat, rest: Text)
    requires Buffers(cesu8, tailLen, rest)
    ensures tailLen <= 5 && tailLen <= |cesu8|
    ensures |Cesu8(rest)| == |cesu8| ==> tailLen == 0
  {
    TailLenIsBoundaryDistance(rest, |cesu8|);
    if |Cesu8(rest)| == |cesu8| {
      assert rest[..|rest|] == rest;
      FitUnique(CESU8, rest, |cesu8|, |rest|);
    }
  }

  function Max(a: nat, b: nat): (m: nat)
    ensures m >= a && m >= b && (m == a || m == b)
  {
    if a >= b then a else b
  }

  /** A text without characters of three or more bytes leaves at most one byte behind a boundary. */
  lemma ShortCharsShortTail(rest: Text, n: nat)
    requires n <= |Cesu8(rest)|
    requires forall i :: 0 <= i < |rest| ==> |EncodeChar(CESU8, rest[i])| <= 2
    ensures BoundaryDistance(rest, n) <= 1
  {
    hide EncodeChar, Encode, Fit;
    PrefixShape(CESU8, rest, n);
  }

  /** Inside character `k` the distance to the boundary is the number of its bytes that are there. */
  lemma DistanceInChar(text: Text, k: nat, m: nat)
    requires k < |text| && m < |EncodeChar(CESU8, text[k])|
    ensures BoundaryDistance(text, |Cesu8(text[..k])| + m) == m
    ensures |Cesu8(text[..k])| + |EncodeChar(CESU8, text[k])| <= |Cesu8(text)|
  {
    hide EncodeChar, Encode, Fit;
    EncodePush(CESU8, text, k);
    EncodeSplit(CESU8, text, k + 1);
    FitUnique(CESU8, text, |Cesu8(text[..k])| + m, k);
  }

  lemma DropFromPrefix(c: seq<byte>, a: seq<byte>, b: seq<byte>)
    requires c <= a + b && |a| <= |c|
    ensures c[|a|..] <= b
  {
  }

  lemma DistanceAfterDrop(rest: Text, n: nat, k: nat)
    requires k <= Fit(CESU8, rest, n)
    ensures |Cesu8(rest[..k])| + BoundaryDistance(rest, n) <= n
    ensures BoundaryDistance(rest[k..], n - |Cesu8(rest[..k])|) == BoundaryDistance(rest, n)
  {
    hide EncodeChar, Fit, Encode;
    FitIsMaximal(CESU8, rest, n);
    FitDrop(CESU8, rest, n, k);
    EncodeRange(CESU8, rest, k, Fit(CESU8, rest, n));
  }

  /** Draining whole characters from the front leaves the tail length as it was. */
  lemma DrainKeepsTail(cesu8: seq<byte>, tailLen: nat, rest: Text, k: nat)
    requires Buffers(cesu8, tailLen, rest) && k <= Fit(CESU8, rest, |cesu8|)
    ensures |Cesu8(rest[..k])| <= |cesu8| - tailLen
    ensures Buffers(cesu8[|Cesu8(rest[..k])|..], tailLen, rest[k..])
  {
    hide EncodeChar, Fit, Encode, BoundaryDistance;
    DistanceAfterDrop(rest, |cesu8|, k);
    EncodeSplit(CESU8, rest, k);
    DropFromPrefix(cesu8, Cesu8(rest[..k]), Cesu8(rest[k..]));
  }

  /** How much of the buffer one read takes out. */
  function DrainLen(bufLen: nat, cesu8: seq<byte>): nat {
    if bufLen <= |cesu8| then bufLen else |cesu8|
  }

  /**
   * The second half of `read`: drains up to `bufLen` bytes, converts the whole characters among them and
   * pushes the others back.
   */
  method DrainText(cesu8: seq<byte>, bufLen: nat, ghost rest: Text) returns (r: Result<(seq<byte>, seq<byte>)>)
    requires cesu8 <= Cesu8(rest)
    ensures r.Err? <==> LoneLead(cesu8[..DrainLen(bufLen, cesu8)])
    ensures r.Ok? ==>
              var k := Fit(CESU8, rest, DrainLen(bufLen, cesu8));
              && |Cesu8(rest[..k])| <= DrainLen(bufLen, cesu8)
              && r.value == (Utf8(rest[..k]), cesu8[|Cesu8(rest[..k])|..])
  {
    hide Encode, Decode, Fit, TailLen;
    var drainLen := DrainLen(bufLen, cesu8);
    var cesu8Buf, left := cesu8[..drainLen], cesu8[drainLen..];
    assert cesu8Buf == Cesu8(rest)[..drainLen];
    TailLenIsBoundaryDistance(rest, drainLen);
    PrefixShape(CESU8, rest, drainLen);
    ghost var k := Fit(CESU8, rest, drainLen);
    var tailLen := GetCesu8TailLen(cesu8Buf);
    if tailLen.Err? {
      return Err(tailLen.error);
    }
    var cutOffPosition := drainLen - tailLen.value;
    assert cesu8Buf[..cutOffPosition] == Cesu8(rest[..k]);
    DecodeEncode(CESU8, rest[..k]);
    var text := Decode(CESU8, cesu8Buf[..cutOffPosition]);
    if text.None? {
      return Err(IoError);
    }
    for i := drainLen downto cutOffPosition
      invariant left == cesu8[i..]
    {
      left := [cesu8Buf[i]] + left;
    }
    return Ok((Utf8(text.value), left));
  }

  /** Reading into a buffer of `bufLen` bytes takes as many whole characters as fit in their CESU-8 form. */
  lemma DrainTakesWhatFits(cesu8: seq<byte>, bufLen: nat, rest: Text)
    requires cesu8 <= Cesu8(rest)
    requires bufLen <= |cesu8| || cesu8 == Cesu8(rest)
    ensures Fit(CESU8, rest, DrainLen(bufLen, cesu8)) == Fit(CESU8, rest, bufLen)
    ensures Fit(CESU8, rest, bufLen) <= Fit(CESU8, rest, |cesu8|)
    ensures |Utf8(rest[..Fit(CESU8, rest, bufLen)])| <= bufLen
  {
    var k := Fit(CESU8, rest, bufLen);
    FitIsMaximal(CESU8, rest, bufLen);
    Cesu8Length(rest[..k]);
    if bufLen > |cesu8| {
      FitAll(CESU8, rest, bufLen);
      FitAll(CESU8, rest, |cesu8|);
    } else {
      FitMonotone(CESU8, rest, bufLen, |cesu8|);
    }
  }

  /**
   * A read delivers nothing exactly if there is nothing left, or the next character does not fit;
   * with a buffer of six bytes or more it fits.
   */
  lemma EmptyReadMeansEnd(rest: Text, bufLen: nat)
    ensures Utf8(rest[..Fit(CESU8, rest, bufLen)]) == [] <==> rest == [] || |EncodeChar(CESU8, rest[0])| > bufLen
    ensures Utf8(rest[..Fit(CESU8, rest, bufLen)]) == [] <==> Fit(CESU8, rest, bufLen) == 0
    ensures bufLen >= 6 ==> (Utf8(rest[..Fit(CESU8, rest, bufLen)]) == [] <==> rest == [])
  {
  }

  /** A buffer of five bytes is too small for a character that CESU-8 writes as a surrogate pair, though UTF-8 needs four. */
  lemma FiveBytesCanBeTooFew()
    ensures Fit(CESU8, [0x1F4A9], 5) == 0 && |Utf8([0x1F4A9])| == 4
  {
  }

  lemma DistanceIsNat(rest: Text, n: nat)
    ensures 0 <= BoundaryDistance(rest, n)
  {
  }

  lemma FirstCharFits(rest: Text)
    requires rest != []
    ensures |Cesu8(rest)| >= |EncodeChar(CESU8, rest[0])|
  {
    hide EncodeChar;
  }

  /** When a buffer is a lone lead: the next character starts with a three-byte lead, and one byte of it is there. */
  lemma LoneLeadMeans(cesu8: seq<byte>, rest: Text)
    requires cesu8 <= Cesu8(rest)
    ensures LoneLead(cesu8) <==> |cesu8| == 1 && rest != [] && |EncodeChar(CESU8, rest[0])| >= 3
    ensures cesu8 == Cesu8(rest) ==> !LoneLead(cesu8)
  {
  }
}
