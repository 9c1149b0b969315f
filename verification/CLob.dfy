/** The streaming reader of src/types_impl/lob/clob.rs: chunks may be cut anywhere in the byte stream. */
module CLob {
  import opened Wrappers
  import opened Unicode
  import opened Cesu8Util
  import opened LobServer
  import opened CharLob

  /**
   * The longest that the buffer gets while `read` fetches for a reader's buffer of `bufLen` bytes, with the
   * content from `position` to `acc` in it; `rest` is the text from `position` on. A fetch that fails leaves no trace.
   */
  ghost function PeakBufLen(server: Server<byte>, rest: Text, position: nat, acc: nat,
                            lobReadLength: nat, bufLen: nat): (peak: nat)
    requires position <= acc <= |server.content|
    decreases |server.content| - acc
  {
    var total, have := |server.content|, acc - position;
    if acc == total || bufLen <= have - BoundaryDistance(rest, have) then 0
    else
      var n := |FetchALobChunk(server, acc, ReadLength(lobReadLength, total - acc)).0|;
      if n == 0 || LoneLead(server.content[position..acc + n]) then 0
      else Max(have + n, PeakBufLen(server, rest, position, acc + n, lobReadLength, bufLen))
  }

  ghost predicate ShortChars(text: Text) {
    forall i :: 0 <= i < |text| ==> |EncodeChar(CESU8, text[i])| <= 2
  }

  /** A fetch starts with less than `bufLen` whole bytes in the buffer, and at most 5 behind them. */
  lemma {:induction false} PeakIsBounded(server: Server<byte>, rest: Text, position: nat, acc: nat,
                                         lobReadLength: nat, bufLen: nat)
    requires position <= acc <= |server.content| && server.content[position..] == Cesu8(rest)
    ensures PeakBufLen(server, rest, position, acc, lobReadLength, bufLen) <= lobReadLength + bufLen + 4
    ensures ShortChars(rest) ==> PeakBufLen(server, rest, position, acc, lobReadLength, bufLen) <= lobReadLength + bufLen
    decreases |server.content| - acc
  {
    hide Encode, EncodeChar, BoundaryDistance, LoneLead, FetchALobChunk, ReadLength;
    var total, have := |server.content|, acc - position;
    TailLenIsBoundaryDistance(rest, have);
    if ShortChars(rest) {
      ShortCharsShortTail(rest, have);
    }
    var n := |FetchALobChunk(server, acc, ReadLength(lobReadLength, total - acc)).0|;
    if n > 0 {
      PeakIsBounded(server, rest, position, acc + n, lobReadLength, bufLen);
    }
  }

  /** How far the content is fetched for a read; `None` if a fetch fails. */
  ghost function FetchedForRead(server: Server<byte>, rest: Text, position: nat, acc: nat,
                                lobReadLength: nat, bufLen: nat): (fetched: Option<nat>)
    requires position <= acc <= |server.content|
    ensures fetched.Some? ==> acc <= fetched.value <= |server.content|
    ensures fetched.Some? ==>
              || fetched.value == |server.content|
              || bufLen <= fetched.value - position
    decreases |server.content| - acc
  {
    hide BoundaryDistance, FetchALobChunk, ReadLength, LoneLead;
    var total, have := |server.content|, acc - position;
    DistanceIsNat(rest, have);
    if acc == total || bufLen <= have - BoundaryDistance(rest, have) then Some(acc)
    else
      var n := |FetchALobChunk(server, acc, ReadLength(lobReadLength, total - acc)).0|;
      if n == 0 || LoneLead(server.content[position..acc + n]) then None
      else FetchedForRead(server, rest, position, acc + n, lobReadLength, bufLen)
  }

  /** Only the first fetch into an empty buffer can fail. */
  lemma {:induction false} FetchFailsIff(server: Server<byte>, rest: Text, position: nat, acc: nat,
                                         lobReadLength: nat, bufLen: nat)
    requires position <= acc <= |server.content| && 0 < lobReadLength && |server.content| - acc < TWO_TO_32
    ensures FetchedForRead(server, rest, position, acc, lobReadLength, bufLen).None? <==>
            && acc == position && acc < |server.content| && bufLen > 0
            && LoneLead(FetchALobChunk(server, acc, ReadLength(lobReadLength, |server.content| - acc)).0)
    decreases |server.content| - acc
  {
    hide Encode, EncodeChar, Fit, FetchALobChunk, ReadLength;
    EmptyDistance(rest);
    if acc < |server.content| && bufLen > acc - position - BoundaryDistance(rest, acc - position) {
      var n := |FetchALobChunk(server, acc, ReadLength(lobReadLength, |server.content| - acc)).0|;
      FetchFailsIff(server, rest, position, acc + n, lobReadLength, bufLen);
    }
  }

  lemma EmptyDistance(rest: Text)
    ensures BoundaryDistance(rest, 0) == 0
  {
  }

  /** What a read of a fetched buffer drains leaves the rest of the text in front of the rest of the content. */
  lemma AfterRead(server: Server<byte>, rest: Text, position: nat, fetched: nat, bufLen: nat)
    requires position <= fetched <= |server.content| && server.content[position..] == Cesu8(rest)
    requires fetched == |server.content| || bufLen <= fetched - position
    ensures var k := Fit(CESU8, rest, bufLen);
            var next := position + |Cesu8(rest[..k])|;
            next <= fetched && server.content[next..] == Cesu8(rest[k..])
  {
    hide Encode, EncodeChar, Fit;
    var k := Fit(CESU8, rest, bufLen);
    FitIsMaximal(CESU8, rest, bufLen);
    EncodeSplit(CESU8, rest, k);
    var n := |Cesu8(rest[..k])|;
    assert server.content[position..][n..] == server.content[position + n..];
  }

  /**
   * The value of `max_buf_len` after the given number of reads into buffers of `bufLen` bytes, or after the first
   * read that fails, if it is `before` now.
   */
  ghost function MaxBufLenAfter(server: Server<byte>, rest: Text, position: nat, acc: nat, before: nat,
                                lobReadLength: nat, bufLen: nat, times: nat): (max: nat)
    requires position <= acc <= |server.content| && server.content[position..] == Cesu8(rest)
    ensures max >= before
    decreases times
  {
    hide Encode, EncodeChar, Fit, BoundaryDistance, PeakBufLen, FetchedForRead;
    if times == 0 then before
    else
      var now := Max(before, PeakBufLen(server, rest, position, acc, lobReadLength, bufLen));
      var fetched := FetchedForRead(server, rest, position, acc, lobReadLength, bufLen);
      if fetched.None? || (bufLen == 1 && rest != [] && |EncodeChar(CESU8, rest[0])| >= 3) then now
      else
        AfterRead(server, rest, position, fetched.value, bufLen);
        var k := Fit(CESU8, rest, bufLen);
        MaxBufLenAfter(server, rest[k..], position + |Cesu8(rest[..k])|, fetched.value, now, lobReadLength, bufLen, times - 1)
  }

  lemma {:induction false} ShortCharsStayBounded(server: Server<byte>, rest: Text, position: nat, acc: nat, before: nat,
                                                 lobReadLength: nat, bufLen: nat, times: nat)
    requires position <= acc <= |server.content| && server.content[position..] == Cesu8(rest)
    requires ShortChars(rest) && before <= lobReadLength + bufLen
    ensures MaxBufLenAfter(server, rest, position, acc, before, lobReadLength, bufLen, times) <= lobReadLength + bufLen
    decreases times
  {
    hide Encode, EncodeChar, Fit, BoundaryDistance, PeakBufLen, FetchedForRead;
    if times > 0 {
      PeakIsBounded(server, rest, position, acc, lobReadLength, bufLen);
      var now := Max(before, PeakBufLen(server, rest, position, acc, lobReadLength, bufLen));
      var fetched := FetchedForRead(server, rest, position, acc, lobReadLength, bufLen);
      if fetched.Some? {
        AfterRead(server, rest, position, fetched.value, bufLen);
        var k := Fit(CESU8, rest, bufLen);
        ShortCharsStayBounded(server, rest[k..], position + |Cesu8(rest[..k])|, fetched.value, now,
                              lobReadLength, bufLen, times - 1);
      }
    }
  }

  /**
   * The documented bound of `max_buf_len`, for any server and any number of reads after a first chunk of any length:
   * the value gets greater than the read length plus the reader's buffer only if the first chunk already is.
   */
  ghost predicate DocumentedBound(text: Text) {
    forall server: Server<byte>, first: nat, lobReadLength: nat, bufLen: nat, times: nat ::
      server.content == Cesu8(text) && first <= |server.content| && !LoneLead(server.content[..first]) ==>
        (MaxBufLenAfter(server, text, 0, first, first, lobReadLength, bufLen, times) <= lobReadLength + bufLen <==>
         first <= lobReadLength + bufLen)
  }

  /** With two bytes of a longer character behind the boundary, one more fetch for one more byte is too much. */
  lemma LongCharExceedsBound(server: Server<byte>, text: Text, k: nat)
    requires server.content == Cesu8(text) && |server.content| < TWO_TO_32
    requires k < |text| && |EncodeChar(CESU8, text[k])| >= 3
    ensures var first, lobReadLength, bufLen := |Cesu8(text[..k])| + 2, 1, |Cesu8(text[..k])| + 1;
            && first < |server.content| && !LoneLead(server.content[..first])
            && first <= lobReadLength + bufLen
            && MaxBufLenAfter(server, text, 0, first, first, lobReadLength, bufLen, 1) > lobReadLength + bufLen
  {
    hide Encode, EncodeChar, BoundaryDistance, FetchALobChunk, ReadLength, FetchedForRead, Fit;
    var a := |Cesu8(text[..k])|;
    DistanceInChar(text, k, 2);
    var n := |FetchALobChunk(server, a + 2, ReadLength(1, |server.content| - (a + 2))).0|;
    assert n == 1;
    assert PeakBufLen(server, text, 0, a + 2, 1, a + 1) >= a + 3;
    assert MaxBufLenAfter(server, text, 0, a + 2, a + 2, 1, a + 1, 1) >= PeakBufLen(server, text, 0, a + 2, 1, a + 1);
  }

  /** The documented bound holds exactly for the texts without characters of three or more bytes. */
  lemma DocumentedBoundHoldsIff(text: Text)
    requires |Cesu8(text)| < TWO_TO_32
    ensures DocumentedBound(text) <==> ShortChars(text)
  {
    hide Encode, EncodeChar, MaxBufLenAfter;
    if ShortChars(text) {
      forall server: Server<byte>, first: nat, lobReadLength: nat, bufLen: nat, times: nat
        | server.content == Cesu8(text) && first <= |server.content| && !LoneLead(server.content[..first])
        ensures MaxBufLenAfter(server, text, 0, first, first, lobReadLength, bufLen, times) <= lobReadLength + bufLen <==>
                first <= lobReadLength + bufLen
      {
        if first <= lobReadLength + bufLen {
          ShortCharsStayBounded(server, text, 0, first, first, lobReadLength, bufLen, times);
        }
      }
    } else {
      var k :| 0 <= k < |text| && |EncodeChar(CESU8, text[k])| >= 3;
      LongCharExceedsBound(Server(Cesu8(text), (_: nat) => 1), text, k);
    }
  }

  /** The buffer continues the content at `position`, where the undelivered text `rest` starts. */
  ghost predicate Continues(content: seq<byte>, position: int, cesu8: seq<byte>, rest: Text) {
    && 0 <= position && position + |cesu8| <= |content|
    && cesu8 == content[position..position + |cesu8|]
    && Cesu8(rest) == content[position..]
  }

  class CLobHandle {
    const server: Server<byte>
    const totalByteLength: nat
    var isDataComplete: bool
    var cesu8: seq<byte>
    var cesu8TailLen: nat
    var maxBufLen: nat
    var accByteLength: nat
    ghost var rest: Text       // the text that was not yet delivered

    /** The position in the content of the first byte that was not yet delivered. */
    ghost function Position(): int
      reads this
    {
      accByteLength - |cesu8|
    }

    ghost predicate Counted()
      reads this
    {
      && totalByteLength == |server.content|
      && accByteLength <= totalByteLength
      && 0 <= Position()
      && (isDataComplete <==> accByteLength == totalByteLength)
      && |cesu8| <= maxBufLen
    }

    ghost predicate Valid()
      reads this
    {
      && Counted()
      && Continues(server.content, Position(), cesu8, rest)
      && Buffers(cesu8, cesu8TailLen, rest)
    }

    /** Bytes that were not yet fetched. */
    ghost function Remaining(): int
      reads this
    {
      totalByteLength - accByteLength
    }

    constructor Init(server: Server<byte>, isDataComplete: bool, totalByteLength: nat, data: seq<byte>, tailLen: nat,
                     ghost text: Text)
      requires server.content == Cesu8(text) && totalByteLength == |server.content|
      requires data <= server.content && (isDataComplete <==> data == server.content)
      requires !LoneLead(data) && TailLen(data) == Ok(tailLen)
      ensures Valid() && this.server == server && rest == text && cesu8 == data && maxBufLen == |data|
      ensures accByteLength == |data| && Remaining() == |server.content| - |data|
    {
      TailLenIsBoundaryDistance(text, |data|);
      assert data == Cesu8(text)[..|data|];
      this.server, this.totalByteLength, this.isDataComplete := server, totalByteLength, isDataComplete;
      cesu8, cesu8TailLen, maxBufLen, accByteLength := data, tailLen, |data|, |data|;
      rest := text;
    }

    /** `CLobHandle::new`, with what came along with the row: part of the content and its length. */
    static method New(server: Server<byte>, isDataComplete: bool, totalByteLength: nat, data: seq<byte>, ghost text: Text)
      returns (r: Result<CLobHandle>)
      requires server.content == Cesu8(text) && totalByteLength == |server.content|
      requires data <= server.content && (isDataComplete <==> data == server.content)
      ensures r.Err? <==> LoneLead(data)
      ensures r.Ok? ==>
                && fresh(r.value) && r.value.Valid() && r.value.server == server && r.value.rest == text
                && r.value.cesu8 == data && r.value.maxBufLen == |data| 
                && r.value.accByteLength == |data| && r.value.Remaining() == |server.content| - |data|
    {
      TailLenIsBoundaryDistance(text, |data|);
      assert data == Cesu8(text)[..|data|];
      var tailLen := GetCesu8TailLen(data);
      if tailLen.Err? {
        return Err(tailLen.error);
      }
      var handle := new CLobHandle.Init(server, isDataComplete, totalByteLength, data, tailLen.value, text);
      return Ok(handle);
    }

    /** The next reply continues the buffer, and what the scan finds at the end of it. */
    lemma ReplyContinues(length: nat)
      requires Valid()
      ensures var data := FetchALobChunk(server, accByteLength, length).0;
              var next := cesu8 + data;
              && next == server.content[Position()..accByteLength + |data|]
              && Continues(server.content, Position(), next, rest)
              && next <= Cesu8(rest)
              && TailLen(next) == if LoneLead(next) then Err(IoError) else Ok(BoundaryDistance(rest, |next|))
    {
      hide Encode, EncodeChar, TailLen, BoundaryDistance;
      var data := FetchALobChunk(server, accByteLength, length).0;
      assert cesu8 + data == Cesu8(rest)[..|cesu8| + |data|];
      TailLenIsBoundaryDistance(rest, |cesu8| + |data|);
    }

    lemma InContent()
      requires Valid()
      ensures 0 <= Position() <= accByteLength <= |server.content|
      ensures server.content[Position()..] == Cesu8(rest)
    {
    }

    method FetchNextChunk(lobReadLength: nat) returns (r: Result<()>)
      requires Valid()
      modifies this
      ensures r.Err? <==>
              old(isDataComplete) ||
              LoneLead(old(cesu8) + FetchALobChunk(server, old(accByteLength), ReadLength(lobReadLength, old(Remaining()))).0)
      ensures r.Ok? ==>
                && Valid() && rest == old(rest) && Position() == old(Position())
                && cesu8 == old(cesu8) + FetchALobChunk(server, old(accByteLength), ReadLength(lobReadLength, old(Remaining()))).0
                && |cesu8| <= |old(cesu8)| + lobReadLength
                && maxBufLen == Max(old(maxBufLen), |cesu8|)
      ensures r.Err? ==> maxBufLen == old(maxBufLen)
      ensures r.Ok? && old(Remaining()) < TWO_TO_32 && lobReadLength > 0 ==> Remaining() < old(Remaining())
      ensures r.Ok? && old(Remaining()) >= TWO_TO_32 ==> Remaining() >= TWO_TO_32
    {
      hide Encode, EncodeChar, Fit, TailLen, BoundaryDistance, ReadLength, FetchALobChunk, LoneLead, Continues;
      if isDataComplete {
        return Err(ImplError);
      }
      var readLength := ReadLength(lobReadLength, totalByteLength - accByteLength);
      var (replyData, replyIsLastData) := FetchALobChunk(server, accByteLength, readLength);
      ReplyContinues(readLength);
      if totalByteLength - accByteLength >= TWO_TO_32 {
        OneFetchLeavesFourGiga(lobReadLength, totalByteLength - accByteLength);
      }

      accByteLength := accByteLength + |replyData|;
      cesu8 := cesu8 + replyData;
      var tailLen := GetCesu8TailLen(cesu8);
      if tailLen.Err? {
        return Err(tailLen.error);
      }
      cesu8TailLen := tailLen.value;
      isDataComplete := replyIsLastData;
      maxBufLen := Max(|cesu8|, maxBufLen);
      assert isDataComplete <==> totalByteLength == accByteLength;   // the code's own assert_eq!
      return Ok(());
    }

    /** The next fetch gets the lone lead of a longer character into an empty buffer. */
    ghost predicate Stalls(lobReadLength: nat)
      requires Counted()
      reads this
    {
      && !isDataComplete && cesu8 == []
      && LoneLead(FetchALobChunk(server, accByteLength, ReadLength(lobReadLength, Remaining())).0)
    }

    /** When that is: in front of a character of three or more bytes, with a read length of 1 or a reply cut down to one byte. */
    lemma StallsIff(lobReadLength: nat)
      requires Valid() && 0 < lobReadLength && Remaining() < TWO_TO_32
      ensures Stalls(lobReadLength) <==>
              && !isDataComplete && cesu8 == []
              && rest != [] && |EncodeChar(CESU8, rest[0])| >= 3
              && (lobReadLength == 1 || server.limit(accByteLength + 1) <= 1)
    {
      hide Encode, EncodeChar, BoundaryDistance;
      if !isDataComplete && cesu8 == [] {
        var data := FetchALobChunk(server, accByteLength, ReadLength(lobReadLength, Remaining())).0;
        assert data == Cesu8(rest)[..|data|];
        LoneLeadMeans(data, rest);
        EncodeNil(CESU8);
        FirstCharFits(rest);
      }
    }

    lemma SteadyNeverStalls(lobReadLength: nat)
      requires Valid() && Remaining() < TWO_TO_32
      requires lobReadLength >= 2 && server.Generous()
      ensures !Stalls(lobReadLength)
    {
      StallsIff(lobReadLength);
    }

    /** A fetch fails exactly if it stalls, because it adds at least one byte. */
    lemma FetchFails(lobReadLength: nat)
      requires Valid() && !isDataComplete && 0 < lobReadLength && Remaining() < TWO_TO_32
      ensures LoneLead(cesu8 + FetchALobChunk(server, accByteLength, ReadLength(lobReadLength, Remaining())).0) <==>
              Stalls(lobReadLength)
    {
      hide Encode, EncodeChar, BoundaryDistance, ReadLength, Buffers, Continues;
      var data := FetchALobChunk(server, accByteLength, ReadLength(lobReadLength, Remaining())).0;
      assert cesu8 == [] ==> cesu8 + data == data;
    }

    /** Everything is loaded, unless the first fetch stalls. */
    method LoadComplete(lobReadLength: nat) returns (r: Result<()>)
      requires Valid() && 0 < lobReadLength && Remaining() < TWO_TO_32
      modifies this
      ensures r.Err? <==> old(Stalls(lobReadLength))
      ensures r.Ok? ==> Valid() && isDataComplete && rest == old(rest)
    {
      hide Encode, EncodeChar, BoundaryDistance, ReadLength, FetchALobChunk, LoneLead, Buffers, Continues;
      while !isDataComplete
        invariant Valid() && rest == old(rest) && Remaining() < TWO_TO_32
        invariant Stalls(lobReadLength) == old(Stalls(lobReadLength))
        decreases Remaining()
      {
        FetchFails(lobReadLength);
        r := FetchNextChunk(lobReadLength);
        if r.Err? {
          return;
        }
      }
      return Ok(());
    }

    lemma CompleteBuffer()
      requires Valid() && isDataComplete
      ensures cesu8 == Cesu8(rest)
    {
      hide Encode;
      assert server.content[Position()..accByteLength] == server.content[Position()..];
    }

    /** What was not yet read, as a string. */
    method IntoString(lobReadLength: nat) returns (r: Result<Text>)
      requires Valid() && 0 < lobReadLength && Remaining() < TWO_TO_32
      modifies this
      ensures r == if old(Stalls(lobReadLength)) then Err(IoError) else Ok(old(rest))
    {
      hide Encode, StringFromCesu8, Stalls;
      var loaded := LoadComplete(lobReadLength);
      if loaded.Err? {
        return Err(IoError);
      }
      CompleteBuffer();
      StringFromCesu8IsDecoding(rest);
      r := StringFromCesu8(cesu8);
    }

    /** Enough is buffered for a read of `bufLen` bytes. */
    predicate Ready(bufLen: nat)
      requires cesu8TailLen <= |cesu8|
      reads this
    {
      isDataComplete || bufLen <= |cesu8| - cesu8TailLen
    }

    /** What `PeakBufLen` says about the next read. */
    ghost function Peak(bufLen: nat, lobReadLength: nat): nat
      requires Valid()
      reads this
    {
      PeakBufLen(server, rest, Position(), accByteLength, lobReadLength, bufLen)
    }

    /** What `FetchedForRead` says about it. */
    ghost function Fetched(bufLen: nat, lobReadLength: nat): Option<nat>
      requires Valid()
      reads this
    {
      FetchedForRead(server, rest, Position(), accByteLength, lobReadLength, bufLen)
    }

    lemma FetchedNoneIff(bufLen: nat, lobReadLength: nat)
      requires Valid() && 0 < lobReadLength && Remaining() < TWO_TO_32
      ensures Fetched(bufLen, lobReadLength).None? <==> bufLen > 0 && Stalls(lobReadLength)
    {
      hide FetchedForRead, BoundaryDistance, FetchALobChunk, ReadLength, Buffers, Continues;
      FetchFailsIff(server, rest, Position(), accByteLength, lobReadLength, bufLen);
    }

    lemma PeakBound(bufLen: nat, lobReadLength: nat)
      requires Valid()
      ensures Peak(bufLen, lobReadLength) <= lobReadLength + bufLen + 4
    {
      PeakIsBounded(server, rest, Position(), accByteLength, lobReadLength, bufLen);
    }

    /** One step of the fetching for a read, as `PeakBufLen` sees it. */
    lemma PeakStep(bufLen: nat, lobReadLength: nat)
      requires Valid() && !isDataComplete && bufLen > |cesu8| - cesu8TailLen
      requires 0 < lobReadLength && Remaining() < TWO_TO_32
      ensures var data := FetchALobChunk(server, accByteLength, ReadLength(lobReadLength, Remaining())).0;
              if LoneLead(cesu8 + data) then Peak(bufLen, lobReadLength) == 0 && Fetched(bufLen, lobReadLength) == None
              else
                && Peak(bufLen, lobReadLength) ==
                   Max(|cesu8 + data|, PeakBufLen(server, rest, Position(), accByteLength + |data|, lobReadLength, bufLen))
                && Fetched(bufLen, lobReadLength) ==
                   FetchedForRead(server, rest, Position(), accByteLength + |data|, lobReadLength, bufLen)
    {
      hide Encode, EncodeChar, BoundaryDistance, LoneLead, FetchALobChunk, ReadLength;
      ReplyContinues(ReadLength(lobReadLength, Remaining()));
    }

    lemma PeakAtEnd(bufLen: nat, lobReadLength: nat)
      requires Valid()
      ensures isDataComplete || bufLen <= |cesu8| - cesu8TailLen ==>
                Peak(bufLen, lobReadLength) == 0 && Fetched(bufLen, lobReadLength) == Some(accByteLength)
    {
    }

    method FetchForRead(bufLen: nat, lobReadLength: nat) returns (r: Result<()>)
      requires Valid() && 0 < lobReadLength && Remaining() < TWO_TO_32
      modifies this
      ensures r.Ok? ==> Valid() && rest == old(rest) && cesu8TailLen <= |cesu8| && Ready(bufLen)
      ensures r.Ok? ==> Remaining() <= old(Remaining()) && Position() == old(Position())
      ensures maxBufLen == Max(old(maxBufLen), old(Peak(bufLen, lobReadLength)))
      ensures r.Err? <==> old(Fetched(bufLen, lobReadLength)) == None
      ensures r.Ok? ==> old(Fetched(bufLen, lobReadLength)) == Some(accByteLength)
    {
      hide Encode, EncodeChar, Fit, BoundaryDistance, LoneLead, FetchALobChunk, ReadLength, PeakBufLen, FetchedForRead, Continues;
      TailIsSmall(cesu8, cesu8TailLen, rest);
      while !isDataComplete && bufLen > |cesu8| - cesu8TailLen
        invariant Valid() && rest == old(rest) && Remaining() <= old(Remaining()) && Position() == old(Position())
        invariant cesu8TailLen <= 5 && cesu8TailLen <= |cesu8|
        invariant Max(maxBufLen, Peak(bufLen, lobReadLength)) == Max(old(maxBufLen), old(Peak(bufLen, lobReadLength)))
        invariant Fetched(bufLen, lobReadLength) == old(Fetched(bufLen, lobReadLength))
        decreases Remaining()
      {
        PeakStep(bufLen, lobReadLength);
        r := FetchNextChunk(lobReadLength);
        if r.Err? {
          return;
        }
        TailIsSmall(cesu8, cesu8TailLen, rest);
      }
      PeakAtEnd(bufLen, lobReadLength);
      return Ok(());
    }

    /** Whatever was fetched when, the read drains a part of the undelivered text that does not depend on it. */
    lemma ReadyToDrain(bufLen: nat)
      requires Valid() && cesu8TailLen <= |cesu8| && Ready(bufLen)
      ensures cesu8 <= Cesu8(rest)
      ensures Fit(CESU8, rest, DrainLen(bufLen, cesu8)) == Fit(CESU8, rest, bufLen)
      ensures Fit(CESU8, rest, bufLen) <= Fit(CESU8, rest, |cesu8|)
      ensures |Utf8(rest[..Fit(CESU8, rest, bufLen)])| <= bufLen
      ensures LoneLead(cesu8[..DrainLen(bufLen, cesu8)]) <==> bufLen == 1 && rest != [] && |EncodeChar(CESU8, rest[0])| >= 3
    {
      if isDataComplete {
        assert server.content[Position()..accByteLength] == server.content[Position()..];
      }
      DrainTakesWhatFits(cesu8, bufLen, rest);
      var drained := cesu8[..DrainLen(bufLen, cesu8)];
      assert drained <= Cesu8(rest);
      LoneLeadMeans(drained, rest);
      if |drained| != bufLen {
        assert drained == cesu8;
      }
    }

    /** What a drain of `k` characters leaves in the buffer. */
    lemma AfterDrain(k: nat)
      requires Valid() && k <= Fit(CESU8, rest, |cesu8|)
      ensures var m := |Cesu8(rest[..k])|;
              && m <= |cesu8|
              && Continues(server.content, Position() + m, cesu8[m..], rest[k..])
              && Buffers(cesu8[m..], cesu8TailLen, rest[k..])
    {
      hide Encode, EncodeChar, Fit, BoundaryDistance;
      DrainKeepsTail(cesu8, cesu8TailLen, rest, k);
      EncodeSplit(CESU8, rest, k);
      var m := |Cesu8(rest[..k])|;
      assert server.content[Position()..][m..] == server.content[Position() + m..];
    }

    /**
     * `read` into a buffer: delivers, as clean UTF-8, as many of the undelivered characters as fit into the
     * buffer in their CESU-8 form; which ones does not depend on how the content was cut into chunks.
     */
    method Read(buf: array<byte>, lobReadLength: nat) returns (r: Result<nat>)
      requires Valid() && 0 < lobReadLength && Remaining() < TWO_TO_32
      modifies this, buf
      ensures r.Ok? ==>
                var k := Fit(CESU8, old(rest), buf.Length);
                && Valid() && rest == old(rest)[k..] && Remaining() <= old(Remaining())
                && r.value == |Utf8(old(rest)[..k])| <= buf.Length
                && buf[..r.value] == Utf8(old(rest)[..k])
                && buf[r.value..] == old(buf[..])[r.value..]
      ensures maxBufLen == Max(old(maxBufLen), old(Peak(buf.Length, lobReadLength)))
      ensures maxBufLen <= Max(old(maxBufLen), lobReadLength + buf.Length + 4)
      ensures r.Err? <==>
              || (buf.Length > 0 && old(Stalls(lobReadLength)))
              || (buf.Length == 1 && old(rest) != [] && |EncodeChar(CESU8, old(rest)[0])| >= 3)
      ensures r.Ok? ==>
                && old(Fetched(buf.Length, lobReadLength)) == Some(accByteLength)
                && Position() == old(Position()) + |Cesu8(old(rest)[..Fit(CESU8, old(rest), buf.Length)])|
    {
      hide Encode, EncodeChar, Fit, LoneLead, Buffers, Continues, Stalls, Fetched, Peak;
      FetchedNoneIff(buf.Length, lobReadLength);
      var bufLen := buf.Length;
      PeakBound(bufLen, lobReadLength);
      var fetched := FetchForRead(bufLen, lobReadLength);
      if fetched.Err? {
        return Err(fetched.error);
      }
      ReadyToDrain(bufLen);
      ghost var k := Fit(CESU8, rest, bufLen);
      var drained := DrainText(cesu8, bufLen, rest);
      if drained.Err? {
        return Err(drained.error);
      }
      AfterDrain(k);
      var (utf8, left) := drained.value;
      cesu8 := left;
      rest := rest[k..];
      WriteAll(buf, utf8);
      return Ok(|utf8|);
    }
  }

  /** Streaming with one read length and one buffer size: what `max_buf_len` says after a number of reads. */
  method ReadTimes(server: Server<byte>, first: nat, lobReadLength: nat, bufLen: nat, times: nat, ghost text: Text)
    returns (r: Result<nat>)
    requires server.content == Cesu8(text) && first <= |server.content| && |server.content| - first < TWO_TO_32
    requires 0 < lobReadLength
    ensures r.Err? <==> LoneLead(server.content[..first])
    ensures r.Ok? ==> r.value == MaxBufLenAfter(server, text, 0, first, first, lobReadLength, bufLen, times)
  {
    hide Encode, EncodeChar, Fit, LoneLead, MaxBufLenAfter, PeakBufLen, FetchedForRead, CLobHandle.Valid, CLobHandle.Stalls;
    var data := server.content[..first];
    var created := CLobHandle.New(server, first == |server.content|, |server.content|, data, text);
    if created.Err? {
      return Err(created.error);
    }
    var handle := created.value;
    ghost var result := MaxBufLenAfter(server, text, 0, first, first, lobReadLength, bufLen, times);
    handle.InContent();
    for i := 0 to times
      invariant handle.Valid() && fresh(handle) && handle.server == server && handle.Remaining() < TWO_TO_32
      invariant handle.Position() >= 0 && handle.Position() <= handle.accByteLength <= |server.content|
      invariant server.content[handle.Position()..] == Cesu8(handle.rest)
      invariant result == MaxBufLenAfter(server, handle.rest, handle.Position(), handle.accByteLength, handle.maxBufLen,
                                         lobReadLength, bufLen, times - i)
    {
      var buf := new byte[bufLen];
      OneMoreRead(server, handle.rest, handle.Position(), handle.accByteLength, handle.maxBufLen,
                  lobReadLength, bufLen, times - i);
      handle.FetchedNoneIff(bufLen, lobReadLength);
      var n := handle.Read(buf, lobReadLength);
      if n.Err? {
        return Ok(handle.maxBufLen);
      }
      handle.InContent();
    }
    NoMoreReads(server, handle.rest, handle.Position(), handle.accByteLength, handle.maxBufLen, lobReadLength, bufLen);
    return Ok(handle.maxBufLen);
  }

  lemma NoMoreReads(server: Server<byte>, rest: Text, position: nat, acc: nat, before: nat, lobReadLength: nat, bufLen: nat)
    requires position <= acc <= |server.content| && server.content[position..] == Cesu8(rest)
    ensures MaxBufLenAfter(server, rest, position, acc, before, lobReadLength, bufLen, 0) == before
  {
  }

  lemma OneMoreRead(server: Server<byte>, rest: Text, position: nat, acc: nat, before: nat,
                    lobReadLength: nat, bufLen: nat, times: nat)
    requires position <= acc <= |server.content| && server.content[position..] == Cesu8(rest) && times > 0
    ensures var now := Max(before, PeakBufLen(server, rest, position, acc, lobReadLength, bufLen));
            var fetched := FetchedForRead(server, rest, position, acc, lobReadLength, bufLen);
            var k := Fit(CESU8, rest, bufLen);
            var next := position + |Cesu8(rest[..k])|;
            if fetched.None? || (bufLen == 1 && rest != [] && |EncodeChar(CESU8, rest[0])| >= 3) then
              MaxBufLenAfter(server, rest, position, acc, before, lobReadLength, bufLen, times) == now
            else
              && next <= fetched.value && server.content[next..] == Cesu8(rest[k..])
              && MaxBufLenAfter(server, rest, position, acc, before, lobReadLength, bufLen, times) ==
                 MaxBufLenAfter(server, rest[k..], next, fetched.value, now, lobReadLength, bufLen, times - 1)
  {
    hide Encode, EncodeChar, Fit, PeakBufLen, FetchedForRead;
    var fetched := FetchedForRead(server, rest, position, acc, lobReadLength, bufLen);
    if fetched.Some? {
      AfterRead(server, rest, position, fetched.value, bufLen);
    }
  }

  /** A fetch that stalls: the euro sign, nothing received yet, and a server that answers with single bytes. */
  lemma SingleBytesStall(lobReadLength: nat, bufLen: nat)
    requires lobReadLength > 0 && bufLen > 0
    ensures var server := Server(Cesu8([0x20AC]), (_: nat) => 1);
            FetchedForRead(server, [0x20AC], 0, 0, lobReadLength, bufLen) == None
  {
    hide FetchedForRead;
    var server := Server(Cesu8([0x20AC]), (_: nat) => 1);
    EncodeOne(CESU8, 0x20AC);
    FetchFailsIff(server, [0x20AC], 0, 0, lobReadLength, bufLen);
  }
}
