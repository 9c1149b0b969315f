/** The streaming writer of src/types_impl/lob/lob_writer.rs. */
module LobWriter {
  import opened Wrappers
  import opened Unicode

  // ---- get_utf8_tail_len ----

  datatype Utf8CharType = Illegal | NotAStart | One | Two | Three | Four

  function Utf8CharStart(b: byte): Utf8CharType {
    if b <= 0x7F then One
    else if b <= 0xBF then NotAStart
    else if b <= 0xDF then Two
    else if b <= 0xEF then Three
    else if b <= 0xF7 then Four
    else Illegal
  }

  function StartLen(b: byte): Option<nat> {
    match Utf8CharStart(b)
    case One => Some(1)
    case Two => Some(2)
    case Three => Some(3)
    case Four => Some(4)
    case _ => None
  }

  function LeftOver(have: nat, charLen: nat): nat {
    if charLen > have then have
    else if charLen == have then 0
    else have - charLen
  }

  function TailScan(bytes: seq<byte>, end: nat): Result<nat>
    requires end <= |bytes|
  {
    if end == 0 then Err(IoError)
    else
      match StartLen(bytes[end - 1])
      case Some(charLen) => Ok(LeftOver(|bytes| - (end - 1), charLen))
      case None => TailScan(bytes, end - 1)
  }

  /** The scan starts before the last byte: a lead of three or four as last byte is not looked at. */
  function TailLen(bytes: seq<byte>): (r: Result<nat>)
    ensures r.Ok? ==> r.value <= |bytes|
  {
    if bytes == [] then Ok(0)
    else
      var last := bytes[|bytes| - 1];
      if last <= 127 then Ok(0)
      else if 0xC0 <= last <= 0xDF then Ok(1)
      else
        TailScanBound(bytes, |bytes| - 1);
        TailScan(bytes, |bytes| - 1)
  }

  lemma {:induction false} TailScanBound(bytes: seq<byte>, end: nat)
    requires end <= |bytes|
    ensures TailScan(bytes, end).Ok? ==> TailScan(bytes, end).value <= |bytes|
  {
    if end > 0 {
      TailScanBound(bytes, end - 1);
    }
  }

  method GetUtf8TailLen(bytes: seq<byte>) returns (r: Result<nat>)
    ensures r == TailLen(bytes)
  {
    if bytes == [] || bytes[|bytes| - 1] <= 127 {
      return Ok(0);
    }
    if 0xC0 <= bytes[|bytes| - 1] <= 0xDF {
      return Ok(1);
    }
    var len := |bytes|;
    for i := 0 to len - 1
      invariant TailScan(bytes, len - 1) == TailScan(bytes, len - 1 - i)
    {
      var index := len - 2 - i;
      var charLen := StartLen(bytes[index]);
      if charLen.Some? {
        if index + charLen.value > len {
          return Ok(len - index);
        } else if index + charLen.value == len {
          return Ok(0);
        } else {
          return Ok(len - index - charLen.value);
        }
      }
    }
    return Err(IoError);
  }

  /** A one-byte buffer holding the lead of a three- or four-byte character. */
  predicate LoneLead(b: seq<byte>) {
    |b| == 1 && 0xE0 <= b[0]
  }

  lemma {:induction false} ScanStopsAt(b: seq<byte>, lo: nat, end: nat)
    requires lo < end <= |b| && StartLen(b[lo]).Some?
    requires forall i :: lo < i < end ==> StartLen(b[i]) == None
    ensures TailScan(b, end) == Ok(LeftOver(|b| - lo, StartLen(b[lo]).value))
  {
    if lo < end - 1 {
      ScanStopsAt(b, lo, end - 1);
    }
  }

  /** A UTF-8 character is a start byte that announces its length, then continuation bytes. */
  lemma CharShape(c: Scalar)
    ensures var w := EncodeChar(UTF8, c);
            && StartLen(w[0]) == Some(|w|)
            && (forall i :: 1 <= i < |w| ==> IsContinuation(w[i]) && StartLen(w[i]) == None)
            && (|w| == 2 ==> 0xC0 <= w[0] <= 0xDF)
            && (|w| >= 3 ==> 0xE0 <= w[0] <= 0xF7)
  {
  }

  /** The tail of whole characters followed by `m` bytes of the next one is these `m` bytes. */
  lemma TailInChar(a: seq<byte>, c: Scalar, m: nat)
    requires 0 < m <= |EncodeChar(UTF8, c)|
    requires m > 1 || |EncodeChar(UTF8, c)| <= 2
    ensures TailLen(a + EncodeChar(UTF8, c)[..m]) == Ok(if m == |EncodeChar(UTF8, c)| then 0 else m)
  {
    var w := EncodeChar(UTF8, c);
    var b := a + w[..m];
    CharShape(c);
    assert forall i :: 0 <= i < m ==> b[|a| + i] == w[i];
    if m > 1 {
      assert forall i :: |a| < i < |b| - 1 ==> b[i] == w[i - |a|];
      ScanStopsAt(b, |a|, |b| - 1);
    }
  }

  lemma TailAfterLead(a: seq<byte>, c: Scalar, lead: byte)
    requires 0xE0 <= lead <= 0xF7
    ensures TailLen(a + EncodeChar(UTF8, c) + [lead]) == Ok(1)
  {
    var w := EncodeChar(UTF8, c);
    var b := a + w + [lead];
    CharShape(c);
    assert forall i :: |a| <= i < |b| - 1 ==> b[i] == w[i - |a|];
    ScanStopsAt(b, |a|, |b| - 1);
  }

  ghost function BoundaryDistance(s: Text, n: nat): nat {
    FitIsMaximal(UTF8, s, n);
    n - |Utf8(s[..Fit(UTF8, s, n)])|
  }

  lemma DistanceInRange(s: Text, n: nat)
    ensures 0 <= BoundaryDistance(s, n) <= n
  {
  }

  /** The UTF-8 twin: on every prefix of well-formed UTF-8 except a lone lead, the distance to the last boundary. */
  lemma TailLenIsBoundaryDistance(s: Text, n: nat)
    requires n <= |Utf8(s)|
    ensures var p := Utf8(s)[..n];
            && TailLen(p) == (if LoneLead(p) then Err(IoError) else Ok(BoundaryDistance(s, n)))
            && BoundaryDistance(s, n) <= 3
  {
    hide EncodeChar, Fit, TailScan;
    PrefixShape(UTF8, s, n);
    var k, m := Fit(UTF8, s, n), BoundaryDistance(s, n);
    if m > 0 {
      TailInsideChar(s, k, m);
    } else if k > 0 {
      TailAtBoundary(s, k);
      assert Utf8(s)[..n] == Utf8(s[..k]);
    }
  }

  lemma TailAtBoundary(s: Text, k: nat)
    requires 0 < k <= |s|
    ensures TailLen(Utf8(s[..k])) == Ok(0) && !LoneLead(Utf8(s[..k]))
  {
    EncodePush(UTF8, s, k - 1);
    var w := EncodeChar(UTF8, s[k - 1]);
    CharShape(s[k - 1]);
    TailInChar(Utf8(s[..k - 1]), s[k - 1], |w|);
    assert w[..|w|] == w;
    assert |Utf8(s[..k])| == 1 ==> Utf8(s[..k]) == w;
  }

  lemma TailInsideChar(s: Text, k: nat, m: nat)
    requires k < |s| && 0 < m < |EncodeChar(UTF8, s[k])|
    ensures var p := Utf8(s[..k]) + EncodeChar(UTF8, s[k])[..m];
            TailLen(p) == if LoneLead(p) then Err(IoError) else Ok(m)
  {
    var a, w := Utf8(s[..k]), EncodeChar(UTF8, s[k]);
    var p := a + w[..m];
    CharShape(s[k]);
    assert p[|a|] == w[0];
    if m > 1 || |w| == 2 {
      TailInChar(a, s[k], m);
    } else if k > 0 {
      EncodePush(UTF8, s, k - 1);
      TailAfterLead(Utf8(s[..k - 1]), s[k - 1], w[0]);
      assert p == a + [w[0]];
    } else {
      assert a == [] && p == [w[0]];
    }
  }

  // ---- utf8_to_cesu8_and_utf8_tail ----

  /** The result is whole text, transcoded, and the bytes that were cut off. */
  ghost predicate Cuts(utf8: seq<byte>, cesu8: seq<byte>, tail: seq<byte>, s: Text) {
    && utf8 == Utf8(s) + tail
    && cesu8 == Cesu8(s)
    && TailLen(utf8) == Ok(|tail|)
  }

  /** Can the bytes be cut and transcoded? */
  predicate Cuttable(utf8: seq<byte>) {
    var tail := TailLen(utf8);
    tail.Ok? && Decode(UTF8, utf8[..|utf8| - tail.value]).Some?
  }

  method Utf8ToCesu8AndUtf8Tail(utf8: seq<byte>) returns (r: Result<(seq<byte>, seq<byte>)>, ghost s: Text)
    ensures r.Ok? <==> Cuttable(utf8)
    ensures r.Ok? ==> Cuts(utf8, r.value.0, r.value.1, s)
  {
    hide Encode, Decode, TailLen;
    s := [];
    var tailLen := GetUtf8TailLen(utf8);
    if tailLen.Err? {
      return Err(tailLen.error), s;
    }
    var cut := |utf8| - tailLen.value;
    var decoded := Decode(UTF8, utf8[..cut]);
    if decoded.None? {
      return Err(IoError), s;
    }
    s := decoded.value;
    assert utf8 == utf8[..cut] + utf8[cut..];
    r := Ok((Cesu8(decoded.value), utf8[cut..]));
  }

  /** Bytes that continue to well-formed UTF-8 can be cut, unless they are a lone lead. */
  lemma CuttableInWellFormed(b: seq<byte>, more: seq<byte>, w: Text)
    requires b + more == Utf8(w)
    ensures Cuttable(b) <==> !LoneLead(b)
    ensures more == [] && !LoneLead(b) ==> TailLen(b) == Ok(0)
  {
    assert b == Utf8(w)[..|b|];
    TailLenIsBoundaryDistance(w, |b|);
    PrefixShape(UTF8, w, |b|);
    var k := Fit(UTF8, w, |b|);
    if !LoneLead(b) {
      assert b[..|b| - TailLen(b).value] == Utf8(w[..k]);
      DecodeEncode(UTF8, w[..k]);
    }
    if more == [] {
      assert w[..|w|] == w && b == Utf8(w);
      FitUnique(UTF8, w, |b|, |w|);
    }
  }

  // ---- The writer ----

  datatype LobType = BLOB | CLOB | NCLOB

  datatype LobWriteMode = Append(buf: seq<byte>) | Last(buf: seq<byte>)

  /** What a server that got these requests has stored. */
  function Stored(sent: seq<LobWriteMode>): seq<byte> {
    if sent == [] then [] else Stored(sent[..|sent| - 1]) + sent[|sent| - 1].buf
  }

  function Joined(texts: seq<Text>): Text {
    if texts == [] then [] else Joined(texts[..|texts| - 1]) + texts[|texts| - 1]
  }

  ghost predicate Transcoded(sent: seq<LobWriteMode>, texts: seq<Text>) {
    |sent| == |texts| && forall i :: 0 <= i < |sent| ==> sent[i].buf == Cesu8(texts[i])
  }

  lemma {:induction false} StoredIsCesu8(sent: seq<LobWriteMode>, texts: seq<Text>)
    requires Transcoded(sent, texts)
    ensures Stored(sent) == Cesu8(Joined(texts))
  {
    if sent != [] {
      var n := |sent| - 1;
      StoredIsCesu8(sent[..n], texts[..n]);
      EncodeConcat(CESU8, Joined(texts[..n]), texts[n]);
    }
  }

  lemma JoinedPush(texts: seq<Text>, s: Text)
    ensures Joined(texts + [s]) == Joined(texts) + s
  {
  }

  lemma StoredPush(sent: seq<LobWriteMode>, m: LobWriteMode)
    ensures Stored(sent + [m]) == Stored(sent) + m.buf
  {
  }

  /**
   * Nothing is lost and nothing is sent twice: what was sent and what is still pending make up the input,
   * and every request to a character LOB is well-formed CESU-8 on its own.
   */
  ghost predicate Accounts(typeId: LobType, sent: seq<LobWriteMode>, texts: seq<Text>, pending: seq<byte>, input: seq<byte>) {
    if typeId.BLOB? then Stored(sent) + pending == input
    else Transcoded(sent, texts) && Utf8(Joined(texts)) + pending == input
  }

  lemma AccountForInput(typeId: LobType, sent: seq<LobWriteMode>, texts: seq<Text>, pending: seq<byte>, input: seq<byte>, data: seq<byte>)
    requires Accounts(typeId, sent, texts, pending, input)
    ensures Accounts(typeId, sent, texts, pending + data, input + data)
  {
  }

  lemma AccountForBinary(sent: seq<LobWriteMode>, m: LobWriteMode, input: seq<byte>)
    requires Accounts(BLOB, sent, [], m.buf, input)
    ensures Accounts(BLOB, sent + [m], [], [], input)
  {
  }

  /** Cutting moves bytes from the pending ones into the text that is sent, and loses none. */
  lemma AccountForText(typeId: LobType, sent: seq<LobWriteMode>, texts: seq<Text>, pending: seq<byte>, input: seq<byte>,
                       m: LobWriteMode, tail: seq<byte>, s: Text)
    requires !typeId.BLOB? && Accounts(typeId, sent, texts, pending, input) && Cuts(pending, m.buf, tail, s)
    ensures Accounts(typeId, sent + [m], texts + [s], tail, input)
  {
    hide Encode, TailLen, Joined;
    JoinedPush(texts, s);
    EncodeConcat(UTF8, Joined(texts), s);
    assert Utf8(Joined(texts)) + (Utf8(s) + tail) == (Utf8(Joined(texts)) + Utf8(s)) + tail;
  }

  class LobWriter {
    const typeId: LobType
    const lobWriteLength: nat
    var buffer: seq<byte>
    var sent: seq<LobWriteMode>    // the requests the server has accepted so far
    ghost var input: seq<byte>     // everything passed to Write so far
    ghost var texts: seq<Text>     // for character LOBs, the text in each request

    ghost predicate Valid()
      reads this
    {
      Accounts(typeId, sent, texts, buffer, input) && (typeId.BLOB? ==> texts == [])
    }

    constructor (typeId: LobType, lobWriteLength: nat)
      ensures Valid() && input == [] && sent == [] && buffer == [] && texts == []
      ensures this.typeId == typeId && this.lobWriteLength == lobWriteLength
    {
      this.typeId, this.lobWriteLength := typeId, lobWriteLength;
      buffer, sent, input, texts := [], [], [], [];
    }

    /** `accepted` is the outcome of the round trip to the server. */
    method Write(data: seq<byte>, accepted: bool) returns (r: Result<nat>)
      requires Valid()
      modifies this
      ensures r.Ok? ==> Valid() && r.value == |data| && input == old(input) + data
      ensures r.Ok? && |data| + |old(buffer)| < lobWriteLength ==>
                sent == old(sent) && texts == old(texts) && buffer == old(buffer) + data
      ensures r.Ok? && |data| + |old(buffer)| >= lobWriteLength ==>
                && |sent| == |old(sent)| + 1 && sent[..|old(sent)|] == old(sent) && sent[|old(sent)|].Append?
                && if typeId.BLOB? then buffer == [] else TailLen(old(buffer) + data) == Ok(|buffer|)
      ensures r.Err? <==>
              && |data| + |old(buffer)| >= lobWriteLength
              && (!accepted || (!typeId.BLOB? && !Cuttable(old(buffer) + data)))
    {
      AccountForInput(typeId, sent, texts, buffer, input, data);
      input := input + data;
      if |data| + |buffer| < lobWriteLength {
        buffer := buffer + data;
      } else {
        var payloadRaw := buffer + data;
        buffer := [];
        if !typeId.BLOB? {
          var cut, s := Utf8ToCesu8AndUtf8Tail(payloadRaw);
          if cut.Err? {
            return Err(cut.error);
          }
          buffer := cut.value.1;
          if !accepted {
            return Err(IoError);
          }
          AccountForText(typeId, sent, texts, payloadRaw, input, Append(cut.value.0), buffer, s);
          sent, texts := sent + [Append(cut.value.0)], texts + [s];
        } else {
          if !accepted {
            return Err(IoError);
          }
          AccountForBinary(sent, Append(payloadRaw), input);
          sent := sent + [Append(payloadRaw)];
        }
      }
      return Ok(|data|);
    }

    /** Succeeds exactly if the whole input is well-formed; then the server holds its transcoded form. */
    method Flush(accepted: bool) returns (r: Result<()>)
      requires Valid()
      modifies this
      ensures r.Ok? <==> accepted && (typeId.BLOB? || Decode(UTF8, old(input)).Some?)
      ensures r.Ok? ==>
                && buffer == [] && input == old(input)
                && |sent| == |old(sent)| + 1 && sent[..|old(sent)|] == old(sent) && sent[|old(sent)|].Last?
                && Stored(sent) == if typeId.BLOB? then input else Cesu8(Decode(UTF8, input).value)
    {
      hide Encode, Decode, TailLen, Joined;
      var payloadRaw := buffer;
      buffer := [];
      var payload;
      if !typeId.BLOB? {
        FlushDecides(Joined(texts), payloadRaw);
        var cut, s := Utf8ToCesu8AndUtf8Tail(payloadRaw);
        if cut.Err? {
          return Err(IoError);
        }
        if cut.value.1 != [] {
          return Err(IoError);
        }
        payload := cut.value.0;
        assert payloadRaw == Utf8(s);
        EncodeConcat(UTF8, Joined(texts), s);
        DecodeEncode(UTF8, Joined(texts) + s);
        EncodeConcat(CESU8, Joined(texts), s);
        StoredIsCesu8(sent, texts);
      } else {
        payload := payloadRaw;
      }
      if !accepted {
        return Err(IoError);
      }
      StoredPush(sent, Last(payload));
      sent := sent + [Last(payload)];
      return Ok(());
    }
  }

  /** The buffered rest can be cut without a remainder exactly if everything written is well-formed. */
  lemma FlushDecides(t: Text, buffer: seq<byte>)
    ensures Decode(UTF8, Utf8(t) + buffer).Some? <==> Cuttable(buffer) && TailLen(buffer) == Ok(0)
  {
    var all := Utf8(t) + buffer;
    if Decode(UTF8, all).Some? {
      var w := Decode(UTF8, all).value;
      EncodeCancel(UTF8, t, buffer, w);
      var rest := w[|t|..];
      assert buffer + [] == Utf8(rest);
      CuttableInWellFormed(buffer, [], rest);
      assert !LoneLead(buffer) by {
        if rest != [] {
          CharShape(rest[0]);
          assert buffer == EncodeChar(UTF8, rest[0]) + Utf8(rest[1..]);
        }
      }
    }
    if Cuttable(buffer) && TailLen(buffer) == Ok(0) {
      assert buffer[..|buffer|] == buffer;
      var s := Decode(UTF8, buffer).value;
      EncodeConcat(UTF8, t, s);
      DecodeEncode(UTF8, t + s);
    }
  }
}
