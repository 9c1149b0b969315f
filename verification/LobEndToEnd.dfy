/** A LOB is written in arbitrary pieces, stored, and read back in arbitrary chunks. */
module LobEndToEnd {
  import opened Wrappers
  import opened Unicode
  import opened LobServer
  import W = LobWriter
  import CharLob
  import BLob
  import CLob
  import NCLob

  function Flatten(pieces: seq<seq<byte>>): seq<byte> {
    if pieces == [] then [] else pieces[0] + Flatten(pieces[1..])
  }

  lemma {:induction false} FlattenPush(pieces: seq<seq<byte>>, i: nat)
    requires i < |pieces|
    ensures Flatten(pieces[..i + 1]) == Flatten(pieces[..i]) + pieces[i]
    ensures Flatten(pieces) == Flatten(pieces[..i]) + pieces[i] + Flatten(pieces[i + 1..])
  {
    if i == 0 {
      assert pieces[..1][1..] == [] && pieces[..0] == [];
    } else {
      FlattenPush(pieces[1..], i - 1);
      assert pieces[..i + 1][1..] == pieces[1..][..i] && pieces[..i][1..] == pieces[1..][..i - 1];
      assert pieces[1..][i..] == pieces[i + 1..];
    }
  }

  /** What `write` finds in the middle of well-formed input: the pending bytes can be cut unless they are a lone lead. */
  lemma CutInWellFormed(joined: Text, pending: seq<byte>, more: seq<byte>, t: Text)
    requires (Utf8(joined) + pending) + more == Utf8(t)
    ensures W.Cuttable(pending) <==> !W.LoneLead(pending)
    ensures !W.LoneLead(pending) ==> W.TailLen(pending) == Ok(W.BoundaryDistance(t, |Utf8(joined) + pending|))
  {
    hide Encode, Fit, W.Cuttable, W.TailLen, W.LoneLead, W.BoundaryDistance;
    assert Utf8(joined) + (pending + more) == (Utf8(joined) + pending) + more;
    EncodeCancel(UTF8, joined, pending + more, t);
    var rest := t[|joined|..];
    W.CuttableInWellFormed(pending, more, rest);
    assert pending == Utf8(rest)[..|pending|];
    W.TailLenIsBoundaryDistance(rest, |pending|);
    assert t[..|joined|] == joined;
    DistanceBehind(t, |joined|, |pending|);
  }

  /** The distance to the last boundary does not depend on whole characters in front. */
  lemma DistanceBehind(t: Text, k: nat, n: nat)
    requires k <= |t|
    ensures W.BoundaryDistance(t, |Utf8(t[..k])| + n) == W.BoundaryDistance(t[k..], n)
  {
    hide Encode, Fit;
    var j := Fit(UTF8, t[k..], n);
    FitIsMaximal(UTF8, t[k..], n);
    EncodeRange(UTF8, t, k, k + j);
    if k + j < |t| {
      EncodeRange(UTF8, t, k, k + j + 1);
    }
    FitUnique(UTF8, t, |Utf8(t[..k])| + n, k + j);
  }

  lemma NoDistance(t: Text)
    ensures W.BoundaryDistance(t, 0) == 0
  {
  }

  /**
   * Piece `i` brings the first byte of a character of three or four, and nothing else, behind the last character
   * boundary: it consists of this byte, or it is empty and the byte is already there.
   */
  ghost predicate LeadAlone(pieces: seq<seq<byte>>, t: Text, i: nat)
    requires i < |pieces| && Utf8(t) == Flatten(pieces)
  {
    var n := |Flatten(pieces[..i])|;
    FlattenPush(pieces, i);
    W.DistanceInRange(t, n);
    W.LoneLead(Flatten(pieces)[n - W.BoundaryDistance(t, n)..|Flatten(pieces[..i + 1])|])
  }

  /** With write lengths of 0 and 1, `write` sends at once, and needs a character boundary. */
  ghost predicate Sendable(lobWriteLength: nat, pieces: seq<seq<byte>>, t: Text)
    requires Utf8(t) == Flatten(pieces)
  {
    lobWriteLength >= 2 || forall i :: 0 <= i < |pieces| ==> !LeadAlone(pieces, t, i)
  }

  /** What a piece adds to the pending bytes, in the whole input. */
  lemma PendingInInput(pieces: seq<seq<byte>>, t: Text, i: nat, joined: Text, buffer: seq<byte>)
    requires i < |pieces| && Utf8(t) == Flatten(pieces)
    requires Utf8(joined) + buffer == Flatten(pieces[..i])
    ensures |Flatten(pieces[..i + 1])| == |Utf8(joined) + (buffer + pieces[i])|
    ensures (Utf8(joined) + (buffer + pieces[i])) + Flatten(pieces[i + 1..]) == Utf8(t)
    ensures |buffer| == W.BoundaryDistance(t, |Flatten(pieces[..i])|) ==>
              (LeadAlone(pieces, t, i) <==> W.LoneLead(buffer + pieces[i]))
  {
    hide Encode, Fit, W.LoneLead, W.BoundaryDistance, Flatten;
    FlattenPush(pieces, i);
    var n, end := |Flatten(pieces[..i])|, |Flatten(pieces[..i + 1])|;
    assert Utf8(joined) + (buffer + pieces[i]) == (Utf8(joined) + buffer) + pieces[i];
    assert Flatten(pieces)[n - |buffer|..end] == buffer + pieces[i];
  }

  /** All `write` calls and the final `flush`; the result is what the server has then stored. */
  method Store(typeId: W.LobType, lobWriteLength: nat, pieces: seq<seq<byte>>, accepts: nat -> bool)
    returns (r: Result<seq<byte>>)
    ensures r.Ok? && typeId.BLOB? ==> r.value == Flatten(pieces)
    ensures r.Ok? && !typeId.BLOB? ==>
              Decode(UTF8, Flatten(pieces)).Some? && r.value == Cesu8(Decode(UTF8, Flatten(pieces)).value)
    ensures (forall i :: accepts(i)) && typeId.BLOB? ==> r.Ok?
    ensures (forall i :: accepts(i)) && !typeId.BLOB? ==>
              (r.Ok? <==>
               && Decode(UTF8, Flatten(pieces)).Some?
               && Sendable(lobWriteLength, pieces, Decode(UTF8, Flatten(pieces)).value))
  {
    hide Encode, Decode, W.Cuttable, W.TailLen, W.LoneLead, W.BoundaryDistance, Flatten, LeadAlone;
    var writer := new W.LobWriter(typeId, lobWriteLength);
    ghost var wellFormed := !typeId.BLOB? && Decode(UTF8, Flatten(pieces)).Some?;
    ghost var t := if wellFormed then Decode(UTF8, Flatten(pieces)).value else [];
    NoDistance(t);
    FlattenNil(pieces);
    for i := 0 to |pieces|
      invariant writer.Valid() && writer.typeId == typeId && writer.lobWriteLength == lobWriteLength
      invariant writer.input == Flatten(pieces[..i])
      invariant wellFormed && lobWriteLength < 2 ==> |writer.buffer| == W.BoundaryDistance(t, |Flatten(pieces[..i])|)
      invariant wellFormed && lobWriteLength < 2 ==> forall k :: 0 <= k < i ==> !LeadAlone(pieces, t, k)
      invariant fresh(writer)
    {
      FlattenPush(pieces, i);
      if wellFormed {
        PendingInInput(pieces, t, i, W.Joined(writer.texts), writer.buffer);
        CutInWellFormed(W.Joined(writer.texts), writer.buffer + pieces[i], Flatten(pieces[i + 1..]), t);
        LoneLeadIsOne(writer.buffer + pieces[i]);
      }
      var written := writer.Write(pieces[i], accepts(i));
      if written.Err? {
        return Err(written.error);
      }
    }
    assert pieces[..|pieces|] == pieces;
    var flushed := writer.Flush(accepts(|pieces|));
    if flushed.Err? {
      return Err(flushed.error);
    }
    return Ok(W.Stored(writer.sent));
  }

  lemma LoneLeadIsOne(b: seq<byte>)
    ensures W.LoneLead(b) ==> |b| == 1
  {
  }

  lemma FlattenNil(pieces: seq<seq<byte>>)
    ensures Flatten(pieces[..0]) == []
  {
  }

  /** The part of the content that comes along with the row. */
  function FirstChunk<T>(content: seq<T>, n: nat): (chunk: seq<T>)
    ensures chunk <= content
    ensures chunk == content <==> n >= |content|
    ensures |chunk| <= n
  {
    if n >= |content| then content else content[..n]
  }

  ghost predicate SplitInto(content: seq<byte>, out: seq<byte>, rest: seq<byte>) {
    content == out + rest
  }

  lemma MoveFront(content: seq<byte>, out: seq<byte>, rest: seq<byte>, n: nat, got: seq<byte>)
    requires SplitInto(content, out, rest) && n <= |rest| && got == rest[..n]
    ensures SplitInto(content, out + got, rest[n..])
  {
  }

  lemma NothingMoved(content: seq<byte>)
    ensures SplitInto(content, [], content)
  {
  }

  lemma AllMoved(content: seq<byte>, out: seq<byte>)
    requires SplitInto(content, out, [])
    ensures content == out
  {
  }

  lemma MoveText(text: Text, out: seq<byte>, rest: Text, k: nat, got: seq<byte>)
    requires SplitInto(Utf8(text), out, Utf8(rest)) && k <= |rest| && got == Utf8(rest[..k])
    ensures SplitInto(Utf8(text), out + got, Utf8(rest[k..]))
  {
    hide Encode;
    EncodeSplit(UTF8, rest, k);
    MoveFront(Utf8(text), out, Utf8(rest), |got|, got);
    assert Utf8(rest)[|got|..] == Utf8(rest[k..]);
  }

  /** Reads a CLOB with the given buffer sizes and read lengths until nothing more comes. */
  method LoadClob(server: Server<byte>, first: nat, readLengths: nat -> nat, bufLens: nat -> nat, ghost text: Text)
    returns (r: Result<seq<byte>>)
    requires server.content == Cesu8(text) && |server.content| - first < TWO_TO_32
    requires forall i :: readLengths(i) > 0 && bufLens(i) >= 6
    ensures r.Ok? ==> r.value == Utf8(text)
    ensures (forall i :: readLengths(i) >= 2) && server.Generous() && first != 1 ==> r.Ok?
  {
    hide Encode, Fit, SplitInto, CLob.CLobHandle.Valid, CLob.CLobHandle.Stalls;
    var data := FirstChunk(server.content, first);
    CharLob.LoneLeadMeans(data, text);
    var created := CLob.CLobHandle.New(server, data == server.content, |server.content|, data, text);
    if created.Err? {
      return Err(created.error);
    }
    var handle := created.value;
    var out, i := [], 0;
    NothingMoved(Utf8(text));
    while true
      invariant handle.Valid() && fresh(handle) && handle.Remaining() < TWO_TO_32 && handle.server == server
      invariant SplitInto(Utf8(text), out, Utf8(handle.rest))
      decreases |handle.rest|
    {
      var buf := new byte[bufLens(i)];
      ghost var before := handle.rest;
      if readLengths(i) >= 2 && server.Generous() {
        handle.SteadyNeverStalls(readLengths(i));
      }
      var n := handle.Read(buf, readLengths(i));
      if n.Err? {
        return Err(n.error);
      }
      var got := buf[..n.value];
      CharLob.EmptyReadMeansEnd(before, buf.Length);
      if n.value == 0 {
        EncodeNil(UTF8);
        AllMoved(Utf8(text), out);
        return Ok(out);
      }
      MoveText(text, out, before, Fit(CESU8, before, buf.Length), got);
      out := out + got;
      i := i + 1;
    }
  }

  /** Reads an NCLOB likewise. */
  method LoadNclob(server: Server<CodeUnit>, first: nat, readLengths: nat -> nat, bufLens: nat -> nat, ghost text: Text)
    returns (r: Result<seq<byte>>)
    requires server.content == Utf16(text) && |server.content| - first < TWO_TO_32
    requires forall i :: readLengths(i) > 0 && bufLens(i) >= 6
    ensures r == Ok(Utf8(text))
  {
    hide Encode, Fit, EncodeUnits, Utf16, SplitInto, NCLob.NCLobHandle.Valid;
    var units := FirstChunk(server.content, first);
    assert units == server.content[..|units|];
    var handle := new NCLob.NCLobHandle(server, units == server.content, |server.content|,
                                        |EncodeUnits(server.content)|, EncodeUnits(units), text, |units|);
    var out, i := [], 0;
    NothingMoved(Utf8(text));
    while true
      invariant handle.Valid() && fresh(handle) && handle.Remaining() < TWO_TO_32
      invariant SplitInto(Utf8(text), out, Utf8(handle.rest))
      decreases |handle.rest|
    {
      var buf := new byte[bufLens(i)];
      ghost var before := handle.rest;
      var n := handle.Read(buf, readLengths(i));
      assert n.Ok?;
      var got := buf[..n.value];
      CharLob.EmptyReadMeansEnd(before, buf.Length);
      if n.value == 0 {
        EncodeNil(UTF8);
        AllMoved(Utf8(text), out);
        return Ok(out);
      }
      MoveText(text, out, before, Fit(CESU8, before, buf.Length), got);
      out := out + got;
      i := i + 1;
    }
  }

  /** Reads a BLOB likewise; any non-empty buffer will do. */
  method LoadBlob(server: Server<byte>, first: nat, readLengths: nat -> nat, bufLens: nat -> nat)
    returns (r: Result<seq<byte>>)
    requires |server.content| - first < TWO_TO_32
    requires forall i :: readLengths(i) > 0 && bufLens(i) > 0
    ensures r == Ok(server.content)
  {
    hide BLob.BLobHandle.Valid, SplitInto;
    var data := FirstChunk(server.content, first);
    var handle := new BLob.BLobHandle(server, data == server.content, |server.content|, data);
    var out, i := [], 0;
    NothingMoved(server.content);
    while true
      invariant handle.Valid() && fresh(handle) && handle.Remaining() < TWO_TO_32
      invariant SplitInto(server.content, out, handle.rest)
      decreases |handle.rest|
    {
      var buf := new byte[bufLens(i)];
      ghost var before := handle.rest;
      var n := handle.Read(buf, readLengths(i));
      var got := buf[..n.value];
      if n.value == 0 {
        AllMoved(server.content, out);
        return Ok(out);
      }
      MoveFront(server.content, out, before, n.value, got);
      out := out + got;
      i := i + 1;
    }
  }

  /**
   * What is read from a CLOB is what was written, for every input, every split into writes, every write length,
   * every chunking by the server and all buffers of at least six bytes, whenever no step fails; and no step
   * fails on well-formed UTF-8 if the server accepts the requests and nothing is cut down to single bytes.
   */
  method ClobRoundTrip(lobWriteLength: nat, pieces: seq<seq<byte>>, accepts: nat -> bool,
                       limit: nat -> nat, first: nat, readLengths: nat -> nat, bufLens: nat -> nat)
    returns (r: Result<seq<byte>>)
    requires forall i :: readLengths(i) > 0 && bufLens(i) >= 6
    requires Decode(UTF8, Flatten(pieces)).Some? ==> |Cesu8(Decode(UTF8, Flatten(pieces)).value)| - first < TWO_TO_32
    ensures r.Ok? ==> r.value == Flatten(pieces)
    ensures (forall i :: accepts(i)) && (forall i :: limit(i) >= 2 && readLengths(i) >= 2) && first != 1 ==>
              (r.Ok? <==>
               && Decode(UTF8, Flatten(pieces)).Some?
               && Sendable(lobWriteLength, pieces, Decode(UTF8, Flatten(pieces)).value))
  {
    var stored := Store(W.CLOB, lobWriteLength, pieces, accepts);
    if stored.Err? {
      return Err(stored.error);
    }
    ghost var text := Decode(UTF8, Flatten(pieces)).value;
    r := LoadClob(Server(stored.value, limit), first, readLengths, bufLens, text);
  }

  /** The same for an NCLOB: the server counts the content in code units, and reading cannot fail. */
  method NclobRoundTrip(lobWriteLength: nat, pieces: seq<seq<byte>>, accepts: nat -> bool,
                        limit: nat -> nat, first: nat, readLengths: nat -> nat, bufLens: nat -> nat)
    returns (r: Result<seq<byte>>)
    requires forall i :: readLengths(i) > 0 && bufLens(i) >= 6
    requires Decode(UTF8, Flatten(pieces)).Some? ==> |Utf16(Decode(UTF8, Flatten(pieces)).value)| - first < TWO_TO_32
    ensures r.Ok? ==> r.value == Flatten(pieces)
    ensures (forall i :: accepts(i)) ==>
              (r.Ok? <==>
               && Decode(UTF8, Flatten(pieces)).Some?
               && Sendable(lobWriteLength, pieces, Decode(UTF8, Flatten(pieces)).value))
  {
    var stored := Store(W.NCLOB, lobWriteLength, pieces, accepts);
    if stored.Err? {
      return Err(stored.error);
    }
    ghost var text := Decode(UTF8, Flatten(pieces)).value;
    DecodeEncode(CESU8, text);
    var content := Utf16(Decode(CESU8, stored.value).value);
    r := LoadNclob(Server(content, limit), first, readLengths, bufLens, text);
  }

  /** The same for a BLOB, with arbitrary bytes. */
  method BlobRoundTrip(lobWriteLength: nat, pieces: seq<seq<byte>>, accepts: nat -> bool,
                       limit: nat -> nat, first: nat, readLengths: nat -> nat, bufLens: nat -> nat)
    returns (r: Result<seq<byte>>)
    requires forall i :: readLengths(i) > 0 && bufLens(i) > 0
    requires |Flatten(pieces)| - first < TWO_TO_32
    ensures r.Ok? ==> r.value == Flatten(pieces)
    ensures (forall i :: accepts(i)) ==> r.Ok?
  {
    var stored := Store(W.BLOB, lobWriteLength, pieces, accepts);
    if stored.Err? {
      return Err(stored.error);
    }
    r := LoadBlob(Server(stored.value, limit), first, readLengths, bufLens);
  }
}
