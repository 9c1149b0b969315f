/** The CESU-8 helpers of src/protocol/util.rs: where does a byte buffer stop holding whole characters? */
module Cesu8Util {
  import opened Wrappers
  import opened Unicode

  datatype Cesu8CharType =
    | TooShort
    | NotAStart
    | One
    | Two
    | Three
    | FirstHalfOfSurrogate
    | SecondHalfOfSurrogate

  function CharType(cesu8: seq<byte>, first: nat): Cesu8CharType
    requires first < |cesu8|
  {
    if first == |cesu8| - 1 then
      if cesu8[first] <= 0x7F then One
      else if 0xC0 <= cesu8[first] <= 0xDF then Two
      else TooShort
    else
      var (a, b) := (cesu8[first], cesu8[first + 1]);
      if a <= 0x7F then One
      else if 0xC0 <= a <= 0xDF then Two
      else if a == 0xED && 0xA0 <= b <= 0xAF then FirstHalfOfSurrogate
      else if a == 0xED && 0xB0 <= b <= 0xBF then SecondHalfOfSurrogate
      else if 0xE0 <= a <= 0xEF && 0x80 <= b <= 0xBF then Three
      else NotAStart
  }

  /** The length of the character that starts at `index`, if the backward scan may stop there. */
  function StartLen(cesu8: seq<byte>, index: nat): Option<nat>
    requires index < |cesu8|
  {
    match CharType(cesu8, index)
    case One => Some(1)
    case Two => Some(2)
    case Three => Some(3)
    case FirstHalfOfSurrogate => Some(6)
    case _ => None
  }

  /** Bytes left over at the end, when the last character start is `have` bytes before the end. */
  function LeftOver(have: nat, charLen: nat): nat {
    if have > charLen then have - charLen
    else if have == charLen then 0
    else have
  }

  function TailScan(cesu8: seq<byte>, end: nat): Result<nat>
    requires end <= |cesu8|
  {
    if end == 0 then Err(IoError)
    else
      match StartLen(cesu8, end - 1)
      case Some(charLen) => Ok(LeftOver(|cesu8| - (end - 1), charLen))
      case None => TailScan(cesu8, end - 1)
  }

  function TailLen(cesu8: seq<byte>): Result<nat> {
    if cesu8 == [] then Ok(0)
    else
      var last := cesu8[|cesu8| - 1];
      if last <= 127 then Ok(0)
      else if 0xC0 <= last <= 0xDF then Ok(1)
      else TailScan(cesu8, |cesu8|)
  }

  method GetCesu8TailLen(bytes: seq<byte>) returns (r: Result<nat>)
    ensures r == TailLen(bytes)
  {
    var len := |bytes|;
    if len == 0 {
      return Ok(0);
    }
    if bytes[len - 1] <= 127 {
      return Ok(0);
    } else if 0xC0 <= bytes[len - 1] <= 0xDF {
      return Ok(1);
    }
    for index := len downto 0
      invariant TailScan(bytes, len) == TailScan(bytes, index)
    {
      var charLen := StartLen(bytes, index);
      if charLen.Some? {
        var have := len - index;
        if have > charLen.value {
          return Ok(have - charLen.value);
        } else if have == charLen.value {
          return Ok(0);
        } else {
          return Ok(have);
        }
      }
    }
    return Err(IoError);
  }

  // ---- What the scan computes on well-formed CESU-8 ----

  /** A one-byte buffer that holds the lead of a three-byte sequence: no cut-off point can be found in it. */
  predicate LoneLead(b: seq<byte>) {
    |b| == 1 && 0xE0 <= b[0] <= 0xEF
  }

  lemma {:induction false} ScanStopsAt(b: seq<byte>, lo: nat, end: nat)
    requires lo < end <= |b| && StartLen(b, lo).Some?
    requires forall i :: lo < i < end ==> StartLen(b, i) == None
    ensures TailScan(b, end) == Ok(LeftOver(|b| - lo, StartLen(b, lo).value))
  {
    if lo < end - 1 {
      ScanStopsAt(b, lo, end - 1);
    }
  }

  /** The bytes of a CESU-8 character, as the scan classifies them. */
  lemma CharShape(c: Scalar)
    ensures var w := EncodeChar(CESU8, c);
            && |w| in {1, 2, 3, 6}
            && (|w| == 1 ==> w[0] < 0x80)
            && (|w| == 2 ==> 0xC0 <= w[0] < 0xE0 && IsContinuation(w[1]))
            && (|w| >= 3 ==> 0xE0 <= w[0] < 0xF0 && IsContinuation(w[1]) && IsContinuation(w[2]))
            && (|w| == 3 ==> !(w[0] == 0xED && 0xA0 <= w[1]))
            && (|w| == 6 ==> w[0] == 0xED && 0xA0 <= w[1] < 0xB0 && w[3] == 0xED && 0xB0 <= w[4] && IsContinuation(w[4]) && IsContinuation(w[5]))
  {
    UnitShape(Units(c)[0]);
    if c >= 0x1_0000 {
      UnitShape(Low(c));
      var h, l := EncodeUnit(High(c)), EncodeUnit(Low(c));
      assert forall i :: 0 <= i < 3 ==> (h + l)[i] == h[i] && (h + l)[i + 3] == l[i];
    }
  }

  /** After a whole character nothing is left over. */
  lemma TailAfterChar(a: seq<byte>, c: Scalar)
    ensures TailLen(a + EncodeChar(CESU8, c)) == Ok(0)
  {
    var w := EncodeChar(CESU8, c);
    var b := a + w;
    CharShape(c);
    assert forall i :: 0 <= i < |w| ==> b[|a| + i] == w[i];
    if |w| > 1 {
      ScanStopsAt(b, |a|, |b|);
    }
  }

  /** A lead byte right after a whole character is left over alone. */
  lemma TailAfterLead(a: seq<byte>, c: Scalar, lead: byte)
    requires 0xE0 <= lead <= 0xEF
    ensures TailLen(a + EncodeChar(CESU8, c) + [lead]) == Ok(1)
  {
    var w := EncodeChar(CESU8, c);
    var b := a + w + [lead];
    CharShape(c);
    assert forall i :: 0 <= i < |w| ==> b[|a| + i] == w[i];
    ScanStopsAt(b, |a|, |b|);
  }

  /** A started character is left over as a whole, also when only half of a surrogate pair is there. */
  lemma TailInChar(a: seq<byte>, c: Scalar, m: nat)
    requires 0 < m < |EncodeChar(CESU8, c)|
    requires m > 1 || |EncodeChar(CESU8, c)| == 2
    ensures TailLen(a + EncodeChar(CESU8, c)[..m]) == Ok(m)
  {
    var w := EncodeChar(CESU8, c);
    var b := a + w[..m];
    CharShape(c);
    hide EncodeChar, TailScan;
    assert forall i :: 0 <= i < m ==> b[|a| + i] == w[i];
    if m > 1 {
      assert StartLen(b, |a|) == Some(|w|);
      ScanStopsAt(b, |a|, |b|);
    }
  }

  /** The distance from `n` back to the last character boundary of the encoded text. */
  ghost function BoundaryDistance(s: Text, n: nat): nat {
    FitIsMaximal(CESU8, s, n);
    n - |Cesu8(s[..Fit(CESU8, s, n)])|
  }

  lemma TailAtBoundary(s: Text, k: nat)
    requires 0 < k <= |s|
    ensures TailLen(Cesu8(s[..k])) == Ok(0) && !LoneLead(Cesu8(s[..k]))
  {
    hide TailLen;
    EncodePush(CESU8, s, k - 1);
    TailAfterChar(Cesu8(s[..k - 1]), s[k - 1]);
    CharShape(s[k - 1]);
    assert |Cesu8(s[..k])| == 1 ==> Cesu8(s[..k]) == EncodeChar(CESU8, s[k - 1]);
  }

  lemma TailInsideChar(s: Text, k: nat, m: nat)
    requires k < |s| && 0 < m < |EncodeChar(CESU8, s[k])|
    ensures var p := Cesu8(s[..k]) + EncodeChar(CESU8, s[k])[..m];
            TailLen(p) == if LoneLead(p) then Err(IoError) else Ok(m)
  {
    var a, w := Cesu8(s[..k]), EncodeChar(CESU8, s[k]);
    var p := a + w[..m];
    CharShape(s[k]);
    assert p[|a|] == w[0];
    if m > 1 || |w| == 2 {
      TailInChar(a, s[k], m);
    } else if k > 0 {
      EncodePush(CESU8, s, k - 1);
      TailAfterLead(Cesu8(s[..k - 1]), s[k - 1], w[0]);
      assert p == a + [w[0]];
    } else {
      assert a == [] && p == [w[0]];
      assert CharType(p, 0) == TooShort && TailScan(p, 0) == Err(IoError);
    }
  }

  /**
   * On every prefix of well-formed CESU-8 the tail length is the distance to the last character boundary,
   * so a surrogate pair is never split; the one exception is a lone three-byte lead, which is an error.
   */
  lemma TailLenIsBoundaryDistance(s: Text, n: nat)
    requires n <= |Cesu8(s)|
    ensures var p := Cesu8(s)[..n];
            && TailLen(p) == (if LoneLead(p) then Err(IoError) else Ok(BoundaryDistance(s, n)))
            && BoundaryDistance(s, n) <= 5
  {
    hide EncodeChar, Fit, TailScan;
    PrefixShape(CESU8, s, n);
    var k, m := Fit(CESU8, s, n), BoundaryDistance(s, n);
    if m > 0 {
      TailInsideChar(s, k, m);
    } else if k > 0 {
      TailAtBoundary(s, k);
      assert Cesu8(s)[..n] == Cesu8(s[..k]);
    }
  }

  // ---- cesu8_length and string_from_cesu8 ----

  function LeadsOfFour(b: seq<byte>): nat {
    if b == [] then 0 else (if b[|b| - 1] >= 240 then 1 else 0) + LeadsOfFour(b[..|b| - 1])
  }

  lemma {:induction false} LeadsOfFourConcat(a: seq<byte>, b: seq<byte>)
    ensures LeadsOfFour(a + b) == LeadsOfFour(a) + LeadsOfFour(b)
  {
    if b == [] {
      assert a + b == a;
    } else {
      assert (a + b)[..|a + b| - 1] == a + b[..|b| - 1];
      LeadsOfFourConcat(a, b[..|b| - 1]);
    }
  }

  lemma {:induction false} NoLeadsOfFour(b: seq<byte>)
    requires forall i :: 0 <= i < |b| ==> b[i] < 240
    ensures LeadsOfFour(b) == 0
  {
    if b != [] {
      NoLeadsOfFour(b[..|b| - 1]);
    }
  }

  lemma LeadsOfChar(c: Scalar)
    ensures LeadsOfFour(EncodeChar(UTF8, c)) == |Units(c)| - 1
  {
    var b := EncodeChar(UTF8, c);
    if c < 0x1_0000 {
      UnitShape(c);
      NoLeadsOfFour(b);
    } else {
      assert b == [b[0]] + b[1..];
      LeadsOfFourConcat([b[0]], b[1..]);
      NoLeadsOfFour(b[1..]);
    }
  }

  lemma {:induction false} LeadsOfText(s: Text)
    ensures LeadsOfFour(Utf8(s)) == |Utf16(s)| - |s|
  {
    if s != [] {
      LeadsOfText(s[1..]);
      LeadsOfChar(s[0]);
      LeadsOfFourConcat(EncodeChar(UTF8, s[0]), Utf8(s[1..]));
    }
  }

  /** `cesu8_length`: the length of the CESU-8 form, counted on the UTF-8 bytes. */
  method LengthInCesu8(s: Text) returns (len: nat)
    ensures len == |Cesu8(s)|
  {
    var bytes := Utf8(s);
    len := |bytes|;
    for i := 0 to |bytes|
      invariant len == |bytes| + 2 * LeadsOfFour(bytes[..i])
    {
      assert bytes[..i + 1][..i] == bytes[..i];
      if bytes[i] >= 240 {
        len := len + 2;
      }
    }
    assert bytes[..|bytes|] == bytes;
    LeadsOfText(s);
    Cesu8Length(s);
  }

  /** `string_from_cesu8`: tries UTF-8 first. */
  function StringFromCesu8(bytes: seq<byte>): Result<Text> {
    match Decode(UTF8, bytes)
    case Some(s) => Ok(s)
    case None =>
      match Decode(CESU8, bytes)
      case Some(s) => Ok(s)
      case None => Err(IoError)
  }

  /** The UTF-8 attempt never changes the outcome for well-formed CESU-8. */
  lemma StringFromCesu8IsDecoding(s: Text)
    ensures StringFromCesu8(Cesu8(s)) == Ok(s)
  {
    DecodeEncode(CESU8, s);
    match Decode(UTF8, Cesu8(s))
    case Some(t) => CommonEncodingsAgree(s, t);
    case None =>
  }

  /** What is accepted, and as what: exactly the encodings in either form. */
  lemma StringFromCesu8Iff(bytes: seq<byte>, s: Text)
    ensures StringFromCesu8(bytes) == Ok(s) <==> bytes == Utf8(s) || bytes == Cesu8(s)
  {
    hide Encode, Decode;
    if bytes == Utf8(s) {
      DecodeEncode(UTF8, s);
    }
    if bytes == Cesu8(s) {
      StringFromCesu8IsDecoding(s);
    }
  }
}
