/** The streaming reader of src/types_impl/lob/blob.rs: bytes are handed out as they are. */
module BLob {
  import opened Wrappers
  import opened Unicode
  import opened LobServer

  /** The buffer holds the first of the undelivered bytes, `rest`, which start at `position` of the content. */
  ghost predicate Buffers(content: seq<byte>, position: int, data: seq<byte>, rest: seq<byte>) {
    && 0 <= position && position + |data| <= |content|
    && rest == content[position..]
    && data == rest[..|data|]
  }

  lemma DropFront(content: seq<byte>, position: int, data: seq<byte>, rest: seq<byte>, count: nat)
    requires Buffers(content, position, data, rest) && count <= |data|
    ensures count <= |rest| && data[..count] == rest[..count]
    ensures Buffers(content, position + count, data[count..], rest[count..])
  {
  }

  lemma AddBack(content: seq<byte>, position: int, data: seq<byte>, rest: seq<byte>, more: seq<byte>)
    requires Buffers(content, position, data, rest)
    requires position + |data| + |more| <= |content|
    requires more == content[position + |data|..position + |data| + |more|]
    ensures Buffers(content, position, data + more, rest)
  {
  }

  class BLobHandle {
    const server: Server<byte>
    const totalByteLength: nat
    var isDataComplete: bool
    var data: seq<byte>
    var maxBufLen: nat
    var accByteLength: nat
    ghost var rest: seq<byte>   // the content that was not yet delivered

    ghost predicate Valid()
      reads this
    {
      && totalByteLength == |server.content|
      && |data| <= accByteLength <= totalByteLength
      && (isDataComplete <==> accByteLength == totalByteLength)
      && |data| <= maxBufLen
      && Buffers(server.content, accByteLength - |data|, data, rest)
    }

    ghost function Remaining(): int
      reads this
    {
      totalByteLength - accByteLength
    }

    constructor (server: Server<byte>, isDataComplete: bool, totalByteLength: nat, data: seq<byte>)
      requires totalByteLength == |server.content|
      requires data <= server.content && (isDataComplete <==> data == server.content)
      ensures Valid() && this.server == server && rest == server.content && this.data == data && maxBufLen == |data|
    {
      this.server, this.totalByteLength, this.isDataComplete := server, totalByteLength, isDataComplete;
      this.data, maxBufLen, accByteLength := data, |data|, |data|;
      rest := server.content;
    }

    method FetchNextChunk(lobReadLength: nat) returns (r: Result<()>)
      requires Valid()
      modifies this
      ensures r.Err? <==> old(isDataComplete)
      ensures r.Ok? ==>
                && Valid() && rest == old(rest) && |data| <= |old(data)| + lobReadLength
                && maxBufLen == (if |data| > old(maxBufLen) then |data| else old(maxBufLen))
      ensures r.Ok? && old(Remaining()) < TWO_TO_32 && lobReadLength > 0 ==> Remaining() < old(Remaining())
      ensures r.Ok? && old(Remaining()) >= TWO_TO_32 ==> Remaining() >= TWO_TO_32
    {
      hide ReadLength, FetchALobChunk, Buffers;
      if isDataComplete {
        return Err(ImplError);
      }
      var readLength := ReadLength(lobReadLength, totalByteLength - accByteLength);
      var (replyData, replyIsLastData) := FetchALobChunk(server, accByteLength, readLength);
      if totalByteLength - accByteLength >= TWO_TO_32 {
        OneFetchLeavesFourGiga(lobReadLength, totalByteLength - accByteLength);
      }
      AddBack(server.content, accByteLength - |data|, data, rest, replyData);
      accByteLength := accByteLength + |replyData|;
      data := data + replyData;
      isDataComplete := replyIsLastData;
      maxBufLen := if |data| > maxBufLen then |data| else maxBufLen;
      assert isDataComplete <==> totalByteLength == accByteLength;   // the code's own assert_eq!
      return Ok(());
    }

    method LoadComplete(lobReadLength: nat) returns (r: Result<()>)
      requires Valid() && 0 < lobReadLength && Remaining() < TWO_TO_32
      modifies this
      ensures r.Ok? && Valid() && isDataComplete && rest == old(rest) == data
    {
      while !isDataComplete
        invariant Valid() && rest == old(rest) && Remaining() < TWO_TO_32
        decreases Remaining()
      {
        r := FetchNextChunk(lobReadLength);
        assert r.Ok?;
      }
      return Ok(());
    }

    method FetchForRead(bufLen: nat, lobReadLength: nat)
      requires Valid() && 0 < lobReadLength && Remaining() < TWO_TO_32
      modifies this
      ensures Valid() && rest == old(rest) && Remaining() <= old(Remaining())
      ensures isDataComplete || bufLen <= |data|
      ensures maxBufLen <= old(maxBufLen) || maxBufLen <= lobReadLength + bufLen - 1
    {
      while !isDataComplete && bufLen > |data|
        invariant Valid() && rest == old(rest) && Remaining() <= old(Remaining())
        invariant maxBufLen <= old(maxBufLen) || maxBufLen <= lobReadLength + bufLen - 1
        decreases Remaining()
      {
        var fetched := FetchNextChunk(lobReadLength);
        assert fetched.Ok?;
      }
    }

    lemma RestLength()
      requires Valid()
      ensures |data| <= |rest| && (isDataComplete ==> |data| == |rest|)
    {
    }

    /** Delivers the next bytes: a full buffer, except at the end of the content. */
    method Read(buf: array<byte>, lobReadLength: nat) returns (r: Result<nat>)
      requires Valid() && 0 < lobReadLength && Remaining() < TWO_TO_32
      modifies this, buf
      ensures r.Ok? && Valid() && Remaining() <= old(Remaining())
      ensures r.value == (if buf.Length <= |old(rest)| then buf.Length else |old(rest)|)
      ensures buf[..r.value] == old(rest)[..r.value] && buf[r.value..] == old(buf[..])[r.value..]
      ensures rest == old(rest)[r.value..]
      ensures maxBufLen <= old(maxBufLen) || maxBufLen <= lobReadLength + buf.Length - 1
    {
      hide Buffers;
      FetchForRead(buf.Length, lobReadLength);
      RestLength();
      var count := if |data| <= buf.Length then |data| else buf.Length;
      DropFront(server.content, accByteLength - |data|, data, rest, count);
      WriteAll(buf, data[..count]);
      data := data[count..];
      rest := rest[count..];
      return Ok(count);
    }
  }
}
