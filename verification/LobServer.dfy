/**
 * The server side of LOB reading: fixed content that answers a 1-based offset and a length with a slice and
 * a last-data flag. A reply may be shorter than asked for, but moves on: `limit` is the most the server puts
 * into the reply for a given offset. No reader asks twice for the same offset, so this covers every chunking.
 */
module LobServer {
  import opened Unicode

  /** What fits into one reply. */
  function Granted(asked: nat, available: nat, limit: nat): (n: nat)
    ensures n <= asked && n <= available
    ensures n == 0 <==> asked == 0 || available == 0
    ensures n == 1 ==> asked == 1 || available == 1 || limit <= 1
  {
    var most := if limit == 0 then 1 else limit;
    if asked <= available && asked <= most then asked
    else if available <= most then available
    else most
  }

  /** Offsets and lengths count elements: bytes for BLOB and CLOB, 1-2-3-byte sequences for NCLOB. */
  datatype Server<T> = Server(content: seq<T>, limit: nat -> nat)
  {
    function ReadLob(offset: nat, length: nat): (r: (seq<T>, bool))
      requires 1 <= offset <= |content| + 1
      ensures |r.0| <= length && offset - 1 + |r.0| <= |content|
      ensures r.0 == content[offset - 1..offset - 1 + |r.0|]
      ensures r.0 == [] <==> length == 0 || offset - 1 == |content|
      ensures r.1 <==> offset - 1 + |r.0| == |content|
    {
      var n := Granted(length, |content| - (offset - 1), limit(offset));
      (content[offset - 1..offset - 1 + n], offset - 1 + n == |content|)
    }

    /** The server never cuts a reply down to a single element. */
    ghost predicate Generous() {
      forall o: nat :: limit(o) >= 2
    }
  }

  /** `fetch_a_lob_chunk`: the client counts from 0, the server from 1. */
  function FetchALobChunk<T>(server: Server<T>, offset: nat, length: nat): (r: (seq<T>, bool))
    requires offset <= |server.content|
    ensures |r.0| <= length && offset + |r.0| <= |server.content|
    ensures r.0 == server.content[offset..offset + |r.0|]
    ensures r.0 == [] <==> length == 0 || offset == |server.content|
    ensures r.1 <==> offset + |r.0| == |server.content|
  {
    server.ReadLob(offset + 1, length)
  }

  const TWO_TO_32: nat := 0x1_0000_0000

  /** `min(lob_read_length, (total - acc) as u32)`: the cast drops everything above 32 bits. */
  function ReadLength(lobReadLength: nat, remaining: nat): (n: nat)
    ensures n <= lobReadLength && n <= remaining
    ensures remaining < TWO_TO_32 ==> n == if lobReadLength <= remaining then lobReadLength else remaining
  {
    var r := remaining % TWO_TO_32;
    if lobReadLength <= r then lobReadLength else r
  }

  /** With 2^32 or more units to go, a request does not reach below 2^32. */
  lemma OneFetchLeavesFourGiga(lobReadLength: nat, remaining: nat)
    requires remaining >= TWO_TO_32
    ensures remaining - ReadLength(lobReadLength, remaining) >= TWO_TO_32
  {
  }

  /** How far the content is received after fetches with the given read lengths, from `acc` on. */
  function AccAfter<T>(server: Server<T>, acc: nat, lobReadLengths: seq<nat>): (end: nat)
    requires acc <= |server.content|
    ensures acc <= end <= |server.content|
    decreases |lobReadLengths|
  {
    if lobReadLengths == [] then acc
    else
      var data := FetchALobChunk(server, acc, ReadLength(lobReadLengths[0], |server.content| - acc)).0;
      AccAfter(server, acc + |data|, lobReadLengths[1..])
  }

  /** Whatever the read lengths and the replies, and after any number of fetches: such a LOB is never completed. */
  lemma {:induction false} FourGigaIsNeverPassed<T>(server: Server<T>, acc: nat, lobReadLengths: seq<nat>)
    requires acc <= |server.content| && |server.content| - acc >= TWO_TO_32
    ensures |server.content| - AccAfter(server, acc, lobReadLengths) >= TWO_TO_32
    decreases |lobReadLengths|
  {
    hide ReadLength, FetchALobChunk;
    if lobReadLengths != [] {
      OneFetchLeavesFourGiga(lobReadLengths[0], |server.content| - acc);
      var data := FetchALobChunk(server, acc, ReadLength(lobReadLengths[0], |server.content| - acc)).0;
      FourGigaIsNeverPassed(server, acc + |data|, lobReadLengths[1..]);
    }
  }

  /** With less than 2^32 units to go it is, for example with as many fetches of a single unit. */
  lemma {:induction false} LessIsCompleted<T>(server: Server<T>, acc: nat)
    requires acc <= |server.content| && |server.content| - acc < TWO_TO_32
    ensures AccAfter(server, acc, seq(|server.content| - acc, (_: nat) => 1)) == |server.content|
    decreases |server.content| - acc
  {
    if acc < |server.content| {
      hide ReadLength, FetchALobChunk;
      var ones := seq(|server.content| - acc, (_: nat) => 1);
      assert ones[1..] == seq(|server.content| - (acc + 1), (_: nat) => 1);
      var data := FetchALobChunk(server, acc, ReadLength(1, |server.content| - acc)).0;
      assert |data| == 1;
      LessIsCompleted(server, acc + 1);
    }
  }

  /** Some number of fetches completes a LOB exactly if less than 2^32 units are left. */
  lemma CompletedIff<T>(server: Server<T>, acc: nat)
    requires acc <= |server.content|
    ensures (exists lengths: seq<nat> :: AccAfter(server, acc, lengths) == |server.content|) <==>
            |server.content| - acc < TWO_TO_32
  {
    hide AccAfter;
    if |server.content| - acc < TWO_TO_32 {
      LessIsCompleted(server, acc);
    } else {
      forall lengths: seq<nat> ensures AccAfter(server, acc, lengths) != |server.content| {
        FourGigaIsNeverPassed(server, acc, lengths);
      }
    }
  }
}
