/** The streaming reader of src/types_impl/lob/nclob.rs: chunks are cut between 1-, 2- and 3-byte sequences. */
module NCLob {
  import opened Wrappers
  import opened Unicode
  import opened Cesu8Util
  import opened LobServer
  import opened CharLob

  // ---- Counting sequences ----

  predicate IsUtf8CharStart(b: byte) {
    b <= 0x7F || 0xC0 <= b <= 0xDF || 0xE0 <= b <= 0xEF || 0xF0 <= b <= 0xF7
  }

  /** `count_1_2_3_sequence_starts` */
  function SequenceStarts(cesu8: seq<byte>): nat {
    if cesu8 == [] then 0
    else (if IsUtf8CharStart(cesu8[0]) then 1 else 0) + SequenceStarts(cesu8[1..])
  }

  lemma {:induction false} SequenceStartsConcat(a: seq<byte>, b: seq<byte>)
    ensures SequenceStarts(a + b) == SequenceStarts(a) + SequenceStarts(b)
  {
    if a == [] {
      assert a + b == b;
    } else {
      assert (a + b)[1..] == a[1..] + b;
      SequenceStartsConcat(a[1..], b);
    }
  }

  lemma SequenceStartsOfUnit(u: CodeUnit)
    ensures SequenceStarts(EncodeUnit(u)) == 1
  {
    var b := EncodeUnit(u);
    UnitShape(u);
    if |b| == 2 {
      assert b[1..] == [b[1]] && [b[1]][1..] == [];
    } else if |b| == 3 {
      assert b[1..] == [b[1], b[2]] && [b[1], b[2]][1..] == [b[2]] && [b[2]][1..] == [];
      assert SequenceStarts([b[2]]) == 0;
    }
  }

  /** The count is the number of UTF-16 code units. */
  lemma {:induction false} SequenceStartsOfUnits(us: seq<CodeUnit>)
    ensures SequenceStarts(EncodeUnits(us)) == |us|
  {
    if us != [] {
      hide EncodeUnit, SequenceStarts;
      SequenceStartsOfUnits(us[1..]);
      SequenceStartsOfUnit(us[0]);
      SequenceStartsConcat(EncodeUnit(us[0]), EncodeUnits(us[1..]));
    } else {
      assert EncodeUnits(us) == [];
    }
  }

  lemma {:induction false} EncodeUnitsLength(us: seq<CodeUnit>)
    ensures |us| <= |EncodeUnits(us)| <= 3 * |us|
  {
    hide EncodeUnit;
    if us != [] {
      EncodeUnitsLength(us[1..]);
    }
  }

  // ---- Buffers that end between sequences ----

  lemma {:induction false} Utf16Concat(s: Text, t: Text)
    ensures Utf16(s + t) == Utf16(s) + Utf16(t)
  {
    if s == [] {
      assert s + t == t;
    } else {
      assert (s + t)[1..] == s[1..] + t;
      Utf16Concat(s[1..], t);
    }
  }

  lemma EncodeUnitsPrefix(us: seq<CodeUnit>, j: nat)
    requires j <= |us|
    ensures EncodeUnits(us[..j]) <= EncodeUnits(us)
    ensures EncodeUnits(us) == EncodeUnits(us[..j]) + EncodeUnits(us[j..])
    ensures |EncodeUnits(us[..j])| == |EncodeUnits(us)| <==> j == |us|
  {
    hide EncodeUnits;
    assert us == us[..j] + us[j..];
    EncodeUnitsConcat(us[..j], us[j..]);
    EncodeUnitsLength(us[j..]);
  }

  /** Cut between sequences, the only thing that can be left over is the first half of a surrogate pair. */
  lemma {:induction false} UnitCutTail(rest: Text, j: nat)
    requires j <= |Utf16(rest)|
    ensures var p := EncodeUnits(Utf16(rest)[..j]);
            && p <= Cesu8(rest)
            && !LoneLead(p)
            && (BoundaryDistance(rest, |p|) == 0 || BoundaryDistance(rest, |p|) == 3)
  {
    hide EncodeUnit, EncodeChar, Encode, BoundaryDistance;
    var us := Utf16(rest);
    Cesu8IsEncodedUtf16(rest);
    EncodeUnitsPrefix(us, j);
    if j == 0 {
      assert us[..0] == [];
      EmptyDistance(rest);
    } else {
      hide EncodeUnits;
      var h := Units(rest[0]);
      if j < |h| {
        assert us[..1] == [h[0]];
        FirstHalf(rest);
      } else {
        var vs := Utf16(rest[1..])[..j - |h|];
        assert us[..j] == h + vs;
        UnitCutTail(rest[1..], j - |h|);
        CharThenUnits(rest, vs);
      }
    }
  }

  lemma FirstHalf(rest: Text)
    requires rest != [] && rest[0] >= 0x1_0000
    ensures var p := EncodeUnits([Units(rest[0])[0]]);
            !LoneLead(p) && BoundaryDistance(rest, |p|) == 3
  {
  }

  lemma CharThenUnits(rest: Text, vs: seq<CodeUnit>)
    requires rest != []
    ensures var p, q := EncodeUnits(Units(rest[0]) + vs), EncodeUnits(vs);
            !LoneLead(p) && BoundaryDistance(rest, |p|) == BoundaryDistance(rest[1..], |q|)
  {
    hide BoundaryDistance, EncodeUnits;
    EncodeUnitsConcat(Units(rest[0]), vs);
    UnitsOfChar(rest[0]);
    CharShape(rest[0]);
    var w, q := EncodeChar(CESU8, rest[0]), EncodeUnits(vs);
    assert (w + q)[0] == w[0];
    FirstCharDistance(rest, |w + q|);
  }

  lemma EmptyDistance(rest: Text)
    ensures BoundaryDistance(rest, 0) == 0
  {
  }

  lemma FirstCharDistance(rest: Text, n: nat)
    requires rest != [] && |EncodeChar(CESU8, rest[0])| <= n
    ensures BoundaryDistance(rest, n) == BoundaryDistance(rest[1..], n - |EncodeChar(CESU8, rest[0])|)
  {
    hide EncodeChar;
    assert rest[..1] == [rest[0]];
    EncodeOne(CESU8, rest[0]);
    DistanceAfterDrop(rest, n, 1);
  }

  // ---- The handle ----

  /** One reply, on the wire: the encoded code units. */
  function FetchUnits(server: Server<CodeUnit>, offset: nat, length: nat): (seq<byte>, bool)
    requires offset <= |server.content|
  {
    var r := FetchALobChunk(server, offset, length);
    (EncodeUnits(r.0), r.1)
  }

  /**
   * The longest that the buffer gets, in bytes, while `read` fetches for a reader's buffer of `bufLen` bytes, with
   * the code units from `position` to `acc` in it; `rest` is the text from `position` on.
   */
  ghost function PeakBufLen(server: Server<CodeUnit>, rest: Text, position: nat, acc: nat,
                            lobReadLength: nat, bufLen: nat): (peak: nat)
    requires position <= acc <= |server.content|
    decreases |server.content| - acc
  {
    var total, have := |server.content|, |EncodeUnits(server.content[position..acc])|;
    if acc == total || bufLen <= have - BoundaryDistance(rest, have) then 0
    else
      var n := |FetchALobChunk(server, acc, ReadLength(lobReadLength, total - acc)).0|;
      if n == 0 then 0
      else Max(|EncodeUnits(server.content[position..acc + n])|,
               PeakBufLen(server, rest, position, acc + n, lobReadLength, bufLen))
  }

  ghost predicate NoPairs(text: Text) {
    forall i :: 0 <= i < |text| ==> text[i] < 0x1_0000
  }

  lemma NoPairsNoTail(rest: Text, j: nat)
    requires j <= |Utf16(rest)| && NoPairs(rest)
    ensures BoundaryDistance(rest, |EncodeUnits(Utf16(rest)[..j])|) == 0
  {
    hide EncodeUnit, EncodeUnits, Encode, Fit, Utf16;
    UnitCutTail(rest, j);
    PrefixShape(CESU8, rest, |EncodeUnits(Utf16(rest)[..j])|);
  }

  /** `n` more units are at most `3 * n` more bytes. */
  lemma LongerBy(content: seq<CodeUnit>, position: nat, acc: nat, n: nat)
    requires position <= acc && acc + n <= |content|
    ensures |EncodeUnits(content[position..acc + n])| <= |EncodeUnits(content[position..acc])| + 3 * n
  {
    hide EncodeUnits;
    assert content[position..acc + n] == content[position..acc] + content[acc..acc + n];
    EncodeUnitsConcat(content[position..acc], content[acc..acc + n]);
    EncodeUnitsLength(content[acc..acc + n]);
  }

  /** A fetch starts with less than `bufLen` whole bytes in the buffer, and at most half a surrogate pair behind them. */
  lemma {:induction false} PeakIsBounded(server: Server<CodeUnit>, rest: Text, position: nat, acc: nat,
                                         lobReadLength: nat, bufLen: nat)
    requires position <= acc <= |server.content| && server.content[position..] == Utf16(rest)
    ensures PeakBufLen(server, rest, position, acc, lobReadLength, bufLen) <= 3 * lobReadLength + bufLen + 2
    ensures NoPairs(rest) ==> PeakBufLen(server, rest, position, acc, lobReadLength, bufLen) <= 3 * lobReadLength + bufLen
    decreases |server.content| - acc
  {
    hide EncodeUnits, Encode, Utf16, BoundaryDistance, FetchALobChunk, ReadLength, NoPairs;
    assert server.content[position..acc] == Utf16(rest)[..acc - position];
    UnitCutTail(rest, acc - position);
    if NoPairs(rest) {
      NoPairsNoTail(rest, acc - position);
    }
    var n := |FetchALobChunk(server, acc, ReadLength(lobReadLength, |server.content| - acc)).0|;
    LongerBy(server.content, position, acc, n);
    if n > 0 {
      PeakIsBounded(server, rest, position, acc + n, lobReadLength, bufLen);
    }
  }

  lemma Utf16Split(text: Text, k: nat)
    requires k <= |text|
    ensures Utf16(text) == Utf16(text[..k]) + Utf16(text[k..])
  {
    hide Utf16;
    assert text == text[..k] + text[k..];
    Utf16Concat(text[..k], text[k..]);
  }

  /** Where the surrogate pair of character `k` is. */
  lemma PairAt(text: Text, k: nat)
    requires k < |text| && text[k] >= 0x1_0000
    ensures var u, a, us := |Utf16(text[..k])|, |Cesu8(text[..k])|, Utf16(text);
            && u + 2 <= |us|
            && |EncodeUnits(us[..u + 1])| == a + 3
            && |EncodeUnits(us[..u + 2])| == a + 6
  {
    hide EncodeUnits, Encode, Utf16;
    var u, us, c := |Utf16(text[..k])|, Utf16(text), text[k];
    Utf16Split(text, k);
    FirstUnits(text[k..]);
    Cesu8IsEncodedUtf16(text[..k]);
    assert us[..u + 1] == Utf16(text[..k]) + [High(c)];
    assert us[..u + 2] == Utf16(text[..k]) + Units(c);
    EncodeUnitsConcat(Utf16(text[..k]), [High(c)]);
    EncodeUnitsConcat(Utf16(text[..k]), Units(c));
    PairLengths(c);
  }

  lemma FirstUnits(rest: Text)
    requires rest != []
    ensures Units(rest[0]) <= Utf16(rest)
  {
  }

  lemma PairLengths(c: Scalar)
    requires c >= 0x1_0000
    ensures |EncodeUnits([High(c)])| == 3 && |EncodeUnits(Units(c))| == 6 && |EncodeChar(CESU8, c)| == 6
  {
    UnitsOfChar(c);
    assert [High(c)][1..] == [];
  }

  /** How far the content is fetched for a read; `None` if a request is for nothing. */
  ghost function FetchedForRead(server: Server<CodeUnit>, rest: Text, position: nat, acc: nat,
                                lobReadLength: nat, bufLen: nat): (fetched: Option<nat>)
    requires position <= acc <= |server.content|
    ensures fetched.Some? ==> acc <= fetched.value <= |server.content|
    ensures fetched.Some? ==>
              || fetched.value == |server.content|
              || bufLen <= |EncodeUnits(server.content[position..fetched.value])|
    ensures 0 < lobReadLength && |server.content| - acc < TWO_TO_32 ==> fetched.Some?
    decreases |server.content| - acc
  {
    hide BoundaryDistance, EncodeUnits, ReadLength;
    var total, have := |server.content|, |EncodeUnits(server.content[position..acc])|;
    DistanceIsNat(rest, have);
    if acc == total || bufLen <= have - BoundaryDistance(rest, have) then Some(acc)
    else
      var n := |FetchALobChunk(server, acc, ReadLength(lobReadLength, total - acc)).0|;
      if n == 0 then None else FetchedForRead(server, rest, position, acc + n, lobReadLength, bufLen)
  }

  /** Delivered characters leave the buffer as their code units. */
  lemma UnitsAfterDrain(content: seq<CodeUnit>, position: nat, acc: nat, rest: Text, k: nat)
    requires position <= acc <= |content| && content[position..] == Utf16(rest) && k <= |rest|
    requires |Cesu8(rest[..k])| <= |EncodeUnits(content[position..acc])|
    ensures var n := position + |Utf16(rest[..k])|;
            && n <= acc
            && content[n..] == Utf16(rest[k..])
            && EncodeUnits(content[position..acc])[|Cesu8(rest[..k])|..] == EncodeUnits(content[n..acc])
  {
    hide EncodeUnits, Encode, Utf16;
    var m, us := |Utf16(rest[..k])|, content[position..acc];
    Utf16Split(rest, k);
    Cesu8IsEncodedUtf16(rest[..k]);
    assert content[position..][..m] == Utf16(rest[..k]) && content[position..][..|us|] == us;
    UnitsByLength(content[position..], m, |us|);
    EncodeUnitsPrefix(us, m);
    assert us[..m] == Utf16(rest[..k]) && us[m..] == content[position + m..acc];
    assert content[position..][m..] == content[position + m..];
  }

  /** What a read of a fetched buffer drains leaves the rest of the text in front of the rest of the content. */
  lemma AfterRead(server: Server<CodeUnit>, rest: Text, position: nat, fetched: nat, bufLen: nat)
    requires position <= fetched <= |server.content| && server.content[position..] == Utf16(rest)
    requires fetched == |server.content| || bufLen <= |EncodeUnits(server.content[position..fetched])|
    ensures var k := Fit(CESU8, rest, bufLen);
            var next := position + |Utf16(rest[..k])|;
            next <= fetched && server.content[next..] == Utf16(rest[k..])
  {
    hide EncodeUnits, Encode, EncodeChar, Fit, Utf16;
    var k := Fit(CESU8, rest, bufLen);
    FitIsMaximal(CESU8, rest, bufLen);
    EncodeMonotone(CESU8, rest, k, |rest|);
    assert rest[..|rest|] == rest;
    Cesu8IsEncodedUtf16(rest);
    assert server.content[position..|server.content|] == server.content[position..];
    UnitsAfterDrain(server.content, position, fetched, rest, k);
  }

  /** See `CLob.MaxBufLenAfter`. */
  ghost function MaxBufLenAfter(server: Server<CodeUnit>, rest: Text, position: nat, acc: nat, before: nat,
                                lobReadLength: nat, bufLen: nat, times: nat): (max: nat)
    requires position <= acc <= |server.content| && server.content[position..] == Utf16(rest)
    ensures max >= before
    decreases times
  {
    hide Encode, EncodeChar, EncodeUnits, Utf16, Fit, BoundaryDistance, PeakBufLen, FetchedForRead;
    if times == 0 then before
    else
      var now := Max(before, PeakBufLen(server, rest, position, acc, lobReadLength, bufLen));
      var fetched := FetchedForRead(server, rest, position, acc, lobReadLength, bufLen);
      if fetched.None? || (bufLen == 1 && rest != [] && |EncodeChar(CESU8, rest[0])| >= 3) then now
      else
        AfterRead(server, rest, position, fetched.value, bufLen);
        var k := Fit(CESU8, rest, bufLen);
        MaxBufLenAfter(server, rest[k..], position + |Utf16(rest[..k])|, fetched.value, now, lobReadLength, bufLen, times - 1)
  }

  lemma {:induction false} NoPairsStayBounded(server: Server<CodeUnit>, rest: Text, position: nat, acc: nat, before: nat,
                                              lobReadLength: nat, bufLen: nat, times: nat)
    requires position <= acc <= |server.content| && server.content[position..] == Utf16(rest)
    requires NoPairs(rest) && before <= 3 * lobReadLength + bufLen
    ensures MaxBufLenAfter(server, rest, position, acc, before, lobReadLength, bufLen, times) <= 3 * lobReadLength + bufLen
    decreases times
  {
    hide Encode, EncodeChar, EncodeUnits, Utf16, Fit, BoundaryDistance, PeakBufLen, FetchedForRead;
    if times > 0 {
      PeakIsBounded(server, rest, position, acc, lobReadLength, bufLen);
      var now := Max(before, PeakBufLen(server, rest, position, acc, lobReadLength, bufLen));
      var fetched := FetchedForRead(server, rest, position, acc, lobReadLength, bufLen);
      if fetched.Some? {
        AfterRead(server, rest, position, fetched.value, bufLen);
        var k := Fit(CESU8, rest, bufLen);
        NoPairsStayBounded(server, rest[k..], position + |Utf16(rest[..k])|, fetched.value, now, lobReadLength, bufLen, times - 1);
      }
    }
  }

  /** What the first `units` code units take in the buffer. */
  ghost function FirstBytes(server: Server<CodeUnit>, units: nat): nat
    requires units <= |server.content|
  {
    |EncodeUnits(server.content[..units])|
  }

  /** See `CLob.DocumentedBound`; here the bound is three times the read length plus the reader's buffer. */
  ghost predicate DocumentedBound(text: Text) {
    forall server: Server<CodeUnit>, units: nat, lobReadLength: nat, bufLen: nat, times: nat ::
      server.content == Utf16(text) && units <= |server.content| ==>
        var bound, first := 3 * lobReadLength + bufLen, FirstBytes(server, units);
        MaxBufLenAfter(server, text, 0, units, first, lobReadLength, bufLen, times) <= bound <==> first <= bound
  }

  /** With the first half of a pair in the buffer, one more fetch for one more unit is too much. */
  lemma PairExceedsBound(server: Server<CodeUnit>, text: Text, k: nat)
    requires server.content == Utf16(text) && |server.content| < TWO_TO_32
    requires k < |text| && text[k] >= 0x1_0000
    ensures var units, lobReadLength, bufLen := |Utf16(text[..k])| + 1, 1, |Cesu8(text[..k])| + 1;
            && units < |server.content| && FirstBytes(server, units) <= 3 * lobReadLength + bufLen
            && MaxBufLenAfter(server, text, 0, units, FirstBytes(server, units), lobReadLength, bufLen, 1)
               > 3 * lobReadLength + bufLen
  {
    hide EncodeUnits, Encode, EncodeChar, Utf16, BoundaryDistance, FetchALobChunk, ReadLength, FetchedForRead, Fit;
    var u, a := |Utf16(text[..k])|, |Cesu8(text[..k])|;
    PairAt(text, k);
    PairLengths(text[k]);
    DistanceInChar(text, k, 3);
    var n := |FetchALobChunk(server, u + 1, ReadLength(1, |server.content| - (u + 1))).0|;
    assert n == 1;
    assert server.content[0..u + 1] == Utf16(text)[..u + 1] && server.content[0..u + 2] == Utf16(text)[..u + 2];
    assert PeakBufLen(server, text, 0, u + 1, 1, a + 1) >= a + 6;
    assert MaxBufLenAfter(server, text, 0, u + 1, a + 3, 1, a + 1, 1) >= PeakBufLen(server, text, 0, u + 1, 1, a + 1);
  }

  /** The documented bound holds exactly for the texts without characters that take a surrogate pair. */
  lemma DocumentedBoundHoldsIff(text: Text)
    requires |Utf16(text)| < TWO_TO_32
    ensures DocumentedBound(text) <==> NoPairs(text)
  {
    hide Utf16, MaxBufLenAfter, FirstBytes;
    if NoPairs(text) {
      forall server: Server<CodeUnit>, units: nat, lobReadLength: nat, bufLen: nat, times: nat
        | server.content == Utf16(text) && units <= |server.content|
        ensures var bound, first := 3 * lobReadLength + bufLen, FirstBytes(server, units);
                MaxBufLenAfter(server, text, 0, units, first, lobReadLength, bufLen, times) <= bound <==> first <= bound
      {
        if FirstBytes(server, units) <= 3 * lobReadLength + bufLen {
          NoPairsStayBounded(server, text, 0, units, FirstBytes(server, units), lobReadLength, bufLen, times);
        }
      }
    } else {
      var k :| 0 <= k < |text| && text[k] >= 0x1_0000;
      PairExceedsBound(Server(Utf16(text), (_: nat) => 1), text, k);
    }
  }

  lemma NothingBefore(text: Text)
    ensures text[0..] == text && |Utf16(text[..0])| == 0
  {
    assert text[..0] == [];
  }

  class NCLobHandle {
    const server: Server<CodeUnit>
    const totalCharLength: nat
    const totalByteLength: nat
    var isDataComplete: bool
    var cesu8: seq<byte>
    var cesu8TailLen: nat
    var maxBufLen: nat
    var accByteLength: nat
    var accCharLength: nat
    ghost var rest: Text        // the text that was not yet delivered
    ghost var position: nat     // where it starts, in code units

    /** What was received is counted right, in code units and in bytes. */
    ghost predicate Counted()
      reads this
    {
      && totalCharLength == |server.content|
      && totalByteLength == |EncodeUnits(server.content)|
      && position <= accCharLength <= totalCharLength
      && accByteLength == |EncodeUnits(server.content[..accCharLength])|
      && (isDataComplete <==> accCharLength == totalCharLength)
      && |cesu8| <= maxBufLen
    }

    ghost predicate Valid()
      reads this
    {
      && Counted()
      && cesu8 == EncodeUnits(server.content[position..accCharLength])
      && server.content[position..] == Utf16(rest)
      && Buffers(cesu8, cesu8TailLen, rest)
    }

    /** Code units that were not yet fetched. */
    ghost function Remaining(): int
      reads this
    {
      totalCharLength - accCharLength
    }

    /** `NCLobHandle::new`, with what came along with the row: the first `units` code units, and the total lengths. */
    constructor (server: Server<CodeUnit>, isDataComplete: bool, totalCharLength: nat, totalByteLength: nat,
                 data: seq<byte>, ghost text: Text, ghost units: nat)
      requires server.content == Utf16(text) && totalCharLength == |server.content|
      requires totalByteLength == |EncodeUnits(server.content)|
      requires units <= |server.content| && data == EncodeUnits(server.content[..units])
      requires isDataComplete <==> units == |server.content|
      ensures Valid() && this.server == server && rest == text && position == 0
      ensures accCharLength == units && Remaining() == |server.content| - units && cesu8 == data && maxBufLen == |data|
    {
      SequenceStartsOfUnits(server.content[..units]);
      UnitCutTail(text, units);
      TailLenIsBoundaryDistance(text, |data|);
      assert data == Cesu8(text)[..|data|];
      var tailLen := GetCesu8TailLen(data);
      this.server, this.totalCharLength, this.totalByteLength := server, totalCharLength, totalByteLength;
      this.isDataComplete := isDataComplete;
      accCharLength, accByteLength := SequenceStarts(data), |data|;
      cesu8, maxBufLen, cesu8TailLen := data, |data|, if tailLen.Ok? then tailLen.value else 0;
      rest, position := text, 0;
    }

    /** The next reply continues the buffer, and the buffer still ends between sequences. */
    lemma ReplyContinues(length: nat)
      requires Valid()
      ensures var units := FetchALobChunk(server, accCharLength, length).0;
              var data := EncodeUnits(units);
              var acc := accCharLength + |units|;
              && SequenceStarts(data) == |units| && |data| <= 3 * length
              && cesu8 + data == EncodeUnits(server.content[position..acc])
              && accByteLength + |data| == |EncodeUnits(server.content[..acc])|
              && (accByteLength + |data| == totalByteLength <==> acc == totalCharLength)
              && cesu8 + data <= Cesu8(rest) && TailLen(cesu8 + data) == Ok(BoundaryDistance(rest, |cesu8 + data|))
    {
      hide EncodeUnits, SequenceStarts, FetchALobChunk, Utf16, Encode, BoundaryDistance, TailLen, LoneLead;
      var units := FetchALobChunk(server, accCharLength, length).0;
      var p, q, e := position, accCharLength, accCharLength + |units|;
      SequenceStartsOfUnits(units);
      EncodeUnitsLength(units);
      assert server.content[p..q] + units == server.content[p..e];
      EncodeUnitsConcat(server.content[p..q], units);
      assert server.content[..q] + units == server.content[..e];
      EncodeUnitsConcat(server.content[..q], units);
      EncodeUnitsPrefix(server.content, e);
      assert Utf16(rest)[..e - p] == server.content[p..e];
      UnitCutTail(rest, e - p);
      var next := cesu8 + EncodeUnits(units);
      assert next == Cesu8(rest)[..|next|];
      TailLenIsBoundaryDistance(rest, |next|);
    }

    method FetchNextChunk(lobReadLength: nat) returns (r: Result<()>)
      requires Valid()
      modifies this
      ensures r.Err? <==> old(isDataComplete)
      ensures r.Ok? ==>
                && Valid() && rest == old(rest) && position == old(position)
                && accCharLength == old(accCharLength) +
                   |FetchALobChunk(server, old(accCharLength), ReadLength(lobReadLength, old(Remaining()))).0|
                && |cesu8| <= |old(cesu8)| + 3 * lobReadLength
                && maxBufLen == Max(old(maxBufLen), |cesu8|)
      ensures r.Ok? && old(Remaining()) < TWO_TO_32 && lobReadLength > 0 ==> Remaining() < old(Remaining())
      ensures r.Ok? && old(Remaining()) >= TWO_TO_32 ==> Remaining() >= TWO_TO_32
    {
      hide EncodeUnits, SequenceStarts, FetchALobChunk, Utf16, Encode, BoundaryDistance, TailLen, ReadLength, LoneLead;
      if isDataComplete {
        return Err(ImplError);
      }
      var readLength := ReadLength(lobReadLength, totalCharLength - accCharLength);
      var (replyData, replyIsLastData) := FetchUnits(server, accCharLength, readLength);
      ReplyContinues(readLength);
      if totalCharLength - accCharLength >= TWO_TO_32 {
        OneFetchLeavesFourGiga(lobReadLength, totalCharLength - accCharLength);
      }

      accByteLength := accByteLength + |replyData|;
      accCharLength := accCharLength + SequenceStarts(replyData);
      cesu8 := cesu8 + replyData;
      var tailLen := GetCesu8TailLen(cesu8);
      assert tailLen.Ok?;   // the early return for an error is dead code here
      cesu8TailLen := tailLen.value;
      isDataComplete := replyIsLastData;
      maxBufLen := Max(|cesu8|, maxBufLen);
      assert isDataComplete <==> totalByteLength == accByteLength;   // the code's own assert_eq!
      return Ok(());
    }

    method LoadComplete(lobReadLength: nat) returns (r: Result<()>)
      requires Valid() && 0 < lobReadLength && Remaining() < TWO_TO_32
      modifies this
      ensures r.Ok? && Valid() && isDataComplete && rest == old(rest)
    {
      while !isDataComplete
        invariant Valid() && rest == old(rest) && Remaining() < TWO_TO_32
        decreases Remaining()
      {
        r := FetchNextChunk(lobReadLength);
        assert r.Ok?;
      }
      return Ok(());
    }

    lemma CompleteBuffer()
      requires Valid() && isDataComplete
      ensures cesu8 == Cesu8(rest)
    {
      hide EncodeUnits, Encode, Utf16;
      assert server.content[position..accCharLength] == server.content[position..];
      Cesu8IsEncodedUtf16(rest);
    }

    /** What was not yet read, as a string; it cannot fail. */
    method IntoString(lobReadLength: nat) returns (r: Result<Text>)
      requires Valid() && 0 < lobReadLength && Remaining() < TWO_TO_32
      modifies this
      ensures r == Ok(old(rest))
    {
      var loaded := LoadComplete(lobReadLength);
      assert loaded.Ok?;
      CompleteBuffer();
      StringFromCesu8IsDecoding(rest);
      r := StringFromCesu8(cesu8);
    }

    /** Enough is buffered for a read of `bufLen` bytes. */
    predicate Ready(bufLen: nat)
      requires cesu8TailLen <= |cesu8|
      reads this
    {
      isDataComplete || bufLen <= |cesu8| - cesu8TailLen
    }

    lemma InContent()
      requires Valid()
      ensures position <= accCharLength <= |server.content| && server.content[position..] == Utf16(rest)
      ensures totalCharLength == |server.content|
    {
    }

    lemma TailIsHalfPair()
      requires Valid()
      ensures cesu8TailLen <= 3 && cesu8TailLen <= |cesu8|
    {
      TailIsSmall(cesu8, cesu8TailLen, rest);
      assert server.content[position..accCharLength] == Utf16(rest)[..accCharLength - position];
      UnitCutTail(rest, accCharLength - position);
    }

    /** What `PeakBufLen` says about the next read. */
    ghost function Peak(bufLen: nat, lobReadLength: nat): nat
      requires Valid()
      reads this
    {
      PeakBufLen(server, rest, position, accCharLength, lobReadLength, bufLen)
    }

    /** What `FetchedForRead` says about it. */
    ghost function Fetched(bufLen: nat, lobReadLength: nat): Option<nat>
      requires Valid()
      reads this
    {
      FetchedForRead(server, rest, position, accCharLength, lobReadLength, bufLen)
    }

    lemma PeakBound(bufLen: nat, lobReadLength: nat)
      requires Valid()
      ensures Peak(bufLen, lobReadLength) <= 3 * lobReadLength + bufLen + 2
    {
      PeakIsBounded(server, rest, position, accCharLength, lobReadLength, bufLen);
    }

    lemma PeakAtEnd(bufLen: nat, lobReadLength: nat)
      requires Valid()
      ensures isDataComplete || bufLen <= |cesu8| - cesu8TailLen ==>
                Peak(bufLen, lobReadLength) == 0 && Fetched(bufLen, lobReadLength) == Some(accCharLength)
    {
    }

    /** One step of the fetching for a read, as `PeakBufLen` sees it. */
    lemma PeakStep(bufLen: nat, lobReadLength: nat)
      requires Valid() && !isDataComplete && bufLen > |cesu8| - cesu8TailLen
      requires 0 < lobReadLength && Remaining() < TWO_TO_32
      ensures var acc := accCharLength + |FetchALobChunk(server, accCharLength, ReadLength(lobReadLength, Remaining())).0|;
              && Peak(bufLen, lobReadLength) ==
                 Max(|EncodeUnits(server.content[position..acc])|, PeakBufLen(server, rest, position, acc, lobReadLength, bufLen))
              && Fetched(bufLen, lobReadLength) == FetchedForRead(server, rest, position, acc, lobReadLength, bufLen)
    {
      hide EncodeUnits, Encode, Utf16, BoundaryDistance, FetchALobChunk, ReadLength;
    }

    method FetchForRead(bufLen: nat, lobReadLength: nat) returns (r: Result<()>)
      requires Valid() && 0 < lobReadLength && Remaining() < TWO_TO_32
      modifies this
      ensures r.Ok? && Valid() && rest == old(rest) && cesu8TailLen <= |cesu8| && Ready(bufLen)
      ensures Remaining() <= old(Remaining()) && position == old(position)
      ensures maxBufLen == Max(old(maxBufLen), old(Peak(bufLen, lobReadLength)))
      ensures old(Fetched(bufLen, lobReadLength)) == Some(accCharLength)
    {
      hide EncodeUnits, Encode, Utf16, BoundaryDistance, FetchALobChunk, ReadLength, PeakBufLen, FetchedForRead;
      TailIsHalfPair();
      while !isDataComplete && bufLen > |cesu8| - cesu8TailLen
        invariant Valid() && rest == old(rest) && Remaining() <= old(Remaining()) && position == old(position)
        invariant Fetched(bufLen, lobReadLength) == old(Fetched(bufLen, lobReadLength))
        invariant cesu8TailLen <= 3 && cesu8TailLen <= |cesu8|
        invariant Max(maxBufLen, Peak(bufLen, lobReadLength)) == Max(old(maxBufLen), old(Peak(bufLen, lobReadLength)))
        decreases Remaining()
      {
        PeakStep(bufLen, lobReadLength);
        r := FetchNextChunk(lobReadLength);
        assert r.Ok?;
        TailIsHalfPair();
      }
      PeakAtEnd(bufLen, lobReadLength);
      return Ok(());
    }

    lemma ReadyToDrain(bufLen: nat)
      requires Valid() && cesu8TailLen <= |cesu8| && Ready(bufLen)
      ensures cesu8 <= Cesu8(rest)
      ensures Fit(CESU8, rest, DrainLen(bufLen, cesu8)) == Fit(CESU8, rest, bufLen)
      ensures Fit(CESU8, rest, bufLen) <= Fit(CESU8, rest, |cesu8|)
      ensures |Utf8(rest[..Fit(CESU8, rest, bufLen)])| <= bufLen
      ensures LoneLead(cesu8[..DrainLen(bufLen, cesu8)]) <==> bufLen == 1 && rest != [] && |EncodeChar(CESU8, rest[0])| >= 3
    {
      if isDataComplete {
        CompleteBuffer();
      }
      DrainTakesWhatFits(cesu8, bufLen, rest);
      var drained := cesu8[..DrainLen(bufLen, cesu8)];
      assert drained <= Cesu8(rest);
      LoneLeadMeans(drained, rest);
      if |drained| != bufLen {
        assert drained == cesu8;
      }
    }

    /** Delivered characters leave the buffer as their code units. */
    lemma DrainedUnits(k: nat)
      requires Valid() && k <= Fit(CESU8, rest, |cesu8|)
      ensures var n := position + |Utf16(rest[..k])|;
              && |Cesu8(rest[..k])| <= |cesu8|
              && n <= accCharLength
              && server.content[n..] == Utf16(rest[k..])
              && cesu8[|Cesu8(rest[..k])|..] == EncodeUnits(server.content[n..accCharLength])
              && Buffers(cesu8[|Cesu8(rest[..k])|..], cesu8TailLen, rest[k..])
    {
      hide EncodeUnits, Encode, Utf16, Fit, BoundaryDistance;
      DrainKeepsTail(cesu8, cesu8TailLen, rest, k);
      UnitsAfterDrain(server.content, position, accCharLength, rest, k);
    }

    /** See `CLobHandle.Read`; here the only error is a one-byte buffer in front of a longer character. */
    method Read(buf: array<byte>, lobReadLength: nat) returns (r: Result<nat>)
      requires Valid() && 0 < lobReadLength && Remaining() < TWO_TO_32
      modifies this, buf
      ensures r.Err? <==> buf.Length == 1 && old(rest) != [] && |EncodeChar(CESU8, old(rest)[0])| >= 3
      ensures r.Ok? ==>
                var k := Fit(CESU8, old(rest), buf.Length);
                && Valid() && rest == old(rest)[k..] && Remaining() <= old(Remaining())
                && r.value == |Utf8(old(rest)[..k])| <= buf.Length
                && buf[..r.value] == Utf8(old(rest)[..k])
                && buf[r.value..] == old(buf[..])[r.value..]
      ensures maxBufLen == Max(old(maxBufLen), old(Peak(buf.Length, lobReadLength)))
      ensures maxBufLen <= Max(old(maxBufLen), 3 * lobReadLength + buf.Length + 2)
      ensures r.Ok? ==>
                && old(Fetched(buf.Length, lobReadLength)) == Some(accCharLength)
                && position == old(position) + |Utf16(old(rest)[..Fit(CESU8, old(rest), buf.Length)])|
    {
      hide EncodeUnits, Encode, EncodeChar, Utf16, Fit, TailLen, LoneLead, Buffers, Peak, Fetched;
      var bufLen := buf.Length;
      PeakBound(bufLen, lobReadLength);
      var fetched := FetchForRead(bufLen, lobReadLength);
      assert fetched.Ok?;
      ReadyToDrain(bufLen);
      ghost var k := Fit(CESU8, rest, bufLen);
      var drained := DrainText(cesu8, bufLen, rest);
      if drained.Err? {
        return Err(drained.error);
      }
      DrainedUnits(k);
      var (utf8, left) := drained.value;
      cesu8 := left;
      position, rest := position + |Utf16(rest[..k])|, rest[k..];
      WriteAll(buf, utf8);
      return Ok(|utf8|);
    }
  }

  /** Of two prefixes in code units the one with fewer bytes has fewer units. */
  lemma UnitsByLength(us: seq<CodeUnit>, m: nat, n: nat)
    requires m <= |us| && n <= |us|
    requires |EncodeUnits(us[..m])| <= |EncodeUnits(us[..n])|
    ensures m <= n
  {
    if n < m {
      assert us[..m][..n] == us[..n];
      EncodeUnitsPrefix(us[..m], n);
    }
  }

  /** Streaming with one read length and one buffer size: what `max_buf_len` says after a number of reads. */
  method ReadTimes(server: Server<CodeUnit>, units: nat, lobReadLength: nat, bufLen: nat, times: nat, ghost text: Text)
    returns (maxBufLen: nat)
    requires server.content == Utf16(text) && units <= |server.content| && |server.content| - units < TWO_TO_32
    requires 0 < lobReadLength
    ensures maxBufLen == MaxBufLenAfter(server, text, 0, units, FirstBytes(server, units), lobReadLength, bufLen, times)
  {
    hide Encode, EncodeChar, EncodeUnits, Utf16, Fit, MaxBufLenAfter, PeakBufLen, FetchedForRead, NCLobHandle.Valid;
    var handle := new NCLobHandle(server, units == |server.content|, |server.content|, |EncodeUnits(server.content)|,
                                  EncodeUnits(server.content[..units]), text, units);
    ghost var result := MaxBufLenAfter(server, text, 0, units, FirstBytes(server, units), lobReadLength, bufLen, times);
    for i := 0 to times
      invariant handle.Valid() && fresh(handle) && handle.server == server && handle.Remaining() < TWO_TO_32
      invariant handle.position <= handle.accCharLength <= |server.content|
      invariant server.content[handle.position..] == Utf16(handle.rest)
      invariant result == MaxBufLenAfter(server, handle.rest, handle.position, handle.accCharLength, handle.maxBufLen,
                                         lobReadLength, bufLen, times - i)
    {
      var buf := new byte[bufLen];
      OneMoreRead(server, handle.rest, handle.position, handle.accCharLength, handle.maxBufLen, lobReadLength, bufLen, times - i);
      handle.InContent();
      var n := handle.Read(buf, lobReadLength);
      if n.Err? {
        return handle.maxBufLen;
      }
      handle.InContent();
    }
    NoMoreReads(server, handle.rest, handle.position, handle.accCharLength, handle.maxBufLen, lobReadLength, bufLen);
    return handle.maxBufLen;
  }

  lemma NoMoreReads(server: Server<CodeUnit>, rest: Text, position: nat, acc: nat, before: nat, lobReadLength: nat, bufLen: nat)
    requires position <= acc <= |server.content| && server.content[position..] == Utf16(rest)
    ensures MaxBufLenAfter(server, rest, position, acc, before, lobReadLength, bufLen, 0) == before
  {
  }

  lemma OneMoreRead(server: Server<CodeUnit>, rest: Text, position: nat, acc: nat, before: nat,
                    lobReadLength: nat, bufLen: nat, times: nat)
    requires position <= acc <= |server.content| && server.content[position..] == Utf16(rest) && times > 0
    ensures var now := Max(before, PeakBufLen(server, rest, position, acc, lobReadLength, bufLen));
            var fetched := FetchedForRead(server, rest, position, acc, lobReadLength, bufLen);
            var k := Fit(CESU8, rest, bufLen);
            var next := position + |Utf16(rest[..k])|;
            if fetched.None? || (bufLen == 1 && rest != [] && |EncodeChar(CESU8, rest[0])| >= 3) then
              MaxBufLenAfter(server, rest, position, acc, before, lobReadLength, bufLen, times) == now
            else
              && next <= fetched.value && server.content[next..] == Utf16(rest[k..])
              && MaxBufLenAfter(server, rest, position, acc, before, lobReadLength, bufLen, times) ==
                 MaxBufLenAfter(server, rest[k..], next, fetched.value, now, lobReadLength, bufLen, times - 1)
  {
    hide Encode, EncodeChar, EncodeUnits, Utf16, Fit, PeakBufLen, FetchedForRead;
    var fetched := FetchedForRead(server, rest, position, acc, lobReadLength, bufLen);
    if fetched.Some? {
      AfterRead(server, rest, position, fetched.value, bufLen);
    }
  }
}
