/** The lazily filled result set of src/protocol/parts/resultset.rs. */
module ResultSet {
  import opened Wrappers

  /** The bits of the part attributes that matter here. */
  datatype Attributes = Attributes(isLastPacket: bool, rowNotFound: bool, resultsetIsClosed: bool)

  /** One reply to a fetch request. */
  datatype Packet<Row> = Packet(rows: seq<Row>, attributes: Attributes)

  function RowsOf<Row>(packets: seq<Packet<Row>>): seq<Row> {
    if packets == [] then [] else packets[0].rows + RowsOf(packets[1..])
  }

  /** The rows in front of the first packet without rows, at which an iteration stops. */
  function UntilEmpty<Row>(packets: seq<Packet<Row>>): seq<Row> {
    if packets == [] || packets[0].rows == [] then [] else packets[0].rows + UntilEmpty(packets[1..])
  }

  /** The rows behind it. */
  function BehindEmpty<Row>(packets: seq<Packet<Row>>): seq<Row> {
    if packets == [] then []
    else if packets[0].rows == [] then RowsOf(packets[1..])
    else BehindEmpty(packets[1..])
  }

  /** Some packet in front of the first one without rows is not the last one, and yet not found or closed. */
  predicate BreaksBeforeEmpty<Row>(packets: seq<Packet<Row>>) {
    && packets != [] && packets[0].rows != []
    && var a := packets[0].attributes;
       (!a.isLastPacket && (a.rowNotFound || a.resultsetIsClosed)) || BreaksBeforeEmpty(packets[1..])
  }

  lemma {:induction false} RowsAroundEmpty<Row>(packets: seq<Packet<Row>>)
    ensures RowsOf(packets) == UntilEmpty(packets) + BehindEmpty(packets)
  {
    if packets != [] && packets[0].rows != [] {
      RowsAroundEmpty(packets[1..]);
    }
  }

  lemma {:induction false} NothingBehindEmpty<Row>(packets: seq<Packet<Row>>)
    requires forall i :: 0 <= i < |packets| - 1 ==> packets[i].rows != []
    ensures BehindEmpty(packets) == []
  {
    if packets != [] && packets[0].rows != [] {
      assert forall i :: 0 <= i < |packets[1..]| - 1 ==> packets[1..][i] == packets[i + 1];
      NothingBehindEmpty(packets[1..]);
    }
  }

  class RsState<Row> {
    var core: Option<Attributes>       // o_am_rscore, with the attributes of the last packet received
    var nextRows: seq<Row>
    var rowIter: seq<Row>
    var packets: seq<Packet<Row>>      // what the server is going to send

    /** The server sends packets until one is marked as the last. */
    /** Some packet that was received last or is still to come is not the last one, and yet not found or closed. */
    ghost predicate Broken()
      reads this
    {
      || (core.Some? && !core.value.isLastPacket && (core.value.rowNotFound || core.value.resultsetIsClosed))
      || exists i :: 0 <= i < |packets| - 1 && (packets[i].attributes.rowNotFound || packets[i].attributes.resultsetIsClosed)
    }

    ghost predicate Valid()
      reads this
    {
      && (packets != [] <==> core.Some? && !core.value.isLastPacket)
      && (forall i :: 0 <= i < |packets| ==> (packets[i].attributes.isLastPacket <==> i == |packets| - 1))
    }

    /** Only the last packet may come without rows. */
    ghost predicate NonEmptyPackets()
      reads this
    {
      forall i :: 0 <= i < |packets| - 1 ==> packets[i].rows != []
    }

    /** The queue this object stands for: all rows that were not yet handed out, in the order of the server. */
    ghost function Undelivered(): seq<Row>
      reads this
    {
      rowIter + nextRows + RowsOf(packets)
    }

    /** What an iteration from here on gets to see of it. */
    ghost function Reachable(): seq<Row>
      reads this
    {
      rowIter + nextRows + UntilEmpty(packets)
    }

    lemma LastMeansNone()
      requires Valid()
      ensures packets != [] <==> core.Some? && !core.value.isLastPacket
    {
    }

    lemma ReachableIsPrefix()
      ensures Undelivered() == Reachable() + BehindEmpty(packets)
      ensures NonEmptyPackets() ==> BehindEmpty(packets) == []
    {
      RowsAroundEmpty(packets);
      if NonEmptyPackets() {
        NothingBehindEmpty(packets);
      }
    }

    /** The first packet comes with the reply to the query. */
    constructor (first: Packet<Row>, packets: seq<Packet<Row>>)
      requires packets != [] <==> !first.attributes.isLastPacket
      requires forall i :: 0 <= i < |packets| ==> (packets[i].attributes.isLastPacket <==> i == |packets| - 1)
      ensures Valid() && Undelivered() == first.rows + RowsOf(packets)
      ensures this.packets == packets && core == Some(first.attributes) && rowIter + nextRows == first.rows
    {
      core, nextRows, rowIter, this.packets := Some(first.attributes), first.rows, [], packets;
      new;
      assert rowIter + nextRows == first.rows;
    }

    function IsComplete(): (r: Result<bool>)
      reads this
    {
      if core.Some? then
        var a := core.value;
        if !a.isLastPacket && (a.rowNotFound || a.resultsetIsClosed) then Err(ImplError) else Ok(a.isLastPacket)
      else Ok(true)
    }

    method FetchNext() returns (r: Result<()>)
      requires Valid() && (core.Some? ==> packets != [])
      modifies this
      ensures r.Ok? <==> old(core).Some?
      ensures r.Err? ==> unchanged(this)
      ensures r.Ok? ==>
                && Valid() && Undelivered() == old(Undelivered())
                && rowIter == old(rowIter) && nextRows == old(nextRows) + old(packets)[0].rows
                && packets == old(packets)[1..]
                && core == (if old(packets)[0].attributes.isLastPacket then None else Some(old(packets)[0].attributes))
                && (old(packets)[0].rows != [] ==> Reachable() == old(Reachable()))
                && (Broken() ==> old(Broken()))
    {
      if core.None? {
        return Err(ImplError);
      }
      var reply := packets[0];
      packets := packets[1..];
      core := Some(reply.attributes);
      assert rowIter + (nextRows + reply.rows) + RowsOf(packets) == rowIter + nextRows + (reply.rows + RowsOf(packets));
      assert rowIter + (nextRows + reply.rows) + UntilEmpty(packets) == rowIter + nextRows + (reply.rows + UntilEmpty(packets));
      nextRows := nextRows + reply.rows;
      if core.value.isLastPacket {
        core := None;
      }
      return Ok(());
    }

    /** What a fetch does to it, unless the packet received last is broken itself. */
    lemma BrokenStep()
      requires Valid() && packets != []
      requires !core.value.rowNotFound && !core.value.resultsetIsClosed
      ensures Broken() <==>
              || (|packets| > 1 && (packets[0].attributes.rowNotFound || packets[0].attributes.resultsetIsClosed))
              || exists i :: 0 <= i < |packets[1..]| - 1 &&
                   (packets[1..][i].attributes.rowNotFound || packets[1..][i].attributes.resultsetIsClosed)
    {
      assert forall i :: 0 <= i < |packets[1..]| ==> packets[1..][i] == packets[i + 1];
      if i :| 1 <= i < |packets| - 1 && (packets[i].attributes.rowNotFound || packets[i].attributes.resultsetIsClosed) {
        assert packets[1..][i - 1] == packets[i];
      }
    }

    method FetchAll() returns (r: Result<()>)
      requires Valid()
      modifies this
      ensures r.Err? <==> old(Broken())
      ensures r.Ok? ==> Valid() && packets == [] && NonEmptyPackets() && Undelivered() == old(Undelivered()) && !Broken()
      ensures r.Ok? ==> |rowIter + nextRows| == |old(Undelivered())|
    {
      while true
        invariant Valid() && Undelivered() == old(Undelivered()) && Broken() == old(Broken())
        decreases |packets|
      {
        var complete := IsComplete();
        if complete.Err? {
          return Err(complete.error);
        }
        if complete.value {
          break;
        }
        BrokenStep();
        r := FetchNext();
        assert r.Ok?;
      }
      assert RowsOf(packets) == [];
      return Ok(());
    }

    /** Counts what was not yet handed out. */
    method TotalNumberOfRows() returns (r: Result<nat>)
      requires Valid()
      modifies this
      ensures r.Err? <==> old(Broken())
      ensures r.Ok? ==> Valid() && packets == [] && NonEmptyPackets() && !Broken()
      ensures r.Ok? ==> Undelivered() == old(Undelivered()) && r.value == |Undelivered()|
    {
      var all := FetchAll();
      if all.Err? {
        return Err(all.error);
      }
      return Ok(|nextRows| + |rowIter|);
    }

    /** With nothing buffered, the next packet decides. */
    lemma EmptyBuffer()
      requires rowIter == [] && nextRows == []
      ensures Reachable() == [] <==> packets == [] || packets[0].rows == []
      ensures packets == [] ==> Undelivered() == []
      ensures NonEmptyPackets() ==> (Undelivered() == [] <==> packets == [] || packets[0].rows == [])
    {
      if packets != [] {
        assert Undelivered() == packets[0].rows + RowsOf(packets[1..]);
        assert |packets| == 1 ==> packets[1..] == [];
      }
    }

    lemma PassRows(rows: seq<Row>)
      requires rowIter == [] && nextRows == rows
      ensures Undelivered() == rows + [] + RowsOf(packets) && Reachable() == rows + [] + UntilEmpty(packets)
    {
      assert [] + rows == rows + [];
    }

    /**
     * Takes the next row off the queue. It reports the end too early exactly if nothing is buffered and the
     * next packet is empty although rows follow it.
     */
    method NextRow() returns (r: Result<Option<Row>>)
      requires Valid()
      modifies this
      ensures r.Err? <==>
              && old(rowIter + nextRows) == []
              && old(core.Some? && !core.value.isLastPacket && (core.value.rowNotFound || core.value.resultsetIsClosed))
      ensures r.Ok? && Broken() ==> old(Broken())
      ensures old(rowIter + nextRows) != [] || old(packets) == [] ==> packets == old(packets) && core == old(core)
      ensures r.Ok? && old(rowIter + nextRows) == [] && old(packets) != [] ==>
                && packets == old(packets)[1..]
                && core == (if old(packets)[0].attributes.isLastPacket then None else Some(old(packets)[0].attributes))
      ensures r.Ok? && r.value.Some? ==> Valid() && old(Undelivered()) == [r.value.value] + Undelivered()
      ensures r.Ok? && r.value.None? ==> Valid() && Undelivered() == old(Undelivered())
      ensures r.Ok? ==>
                (r.value.None? <==> old(rowIter + nextRows) == [] && (old(packets) == [] || old(packets)[0].rows == []))
      ensures r.Ok? && r.value.None? ==>
                && rowIter + nextRows == []
                && (old(packets) != [] ==> packets == old(packets)[1..] && (core.Some? ==> core.value == old(packets)[0].attributes))
      ensures r.Ok? && r.value.Some? ==> old(Reachable()) == [r.value.value] + Reachable()
      ensures r.Ok? ==> (r.value.None? <==> old(Reachable()) == [])
      ensures r.Ok? && old(NonEmptyPackets()) ==> NonEmptyPackets() && (r.value.None? <==> old(Undelivered()) == [])
    {
      hide RowsOf, UntilEmpty;
      var row := Next();
      if row.Some? {
        return Ok(row);
      }
      if nextRows == [] {
        EmptyBuffer();
        var complete := IsComplete();
        if complete.Err? {
          return Err(complete.error);
        }
        if complete.value {
          return Ok(None);
        }
        var fetched := FetchNext();
        assert fetched.Ok?;
      }
      PassRows(nextRows);
      rowIter, nextRows := nextRows, [];
      row := Next();
      return Ok(row);
    }

    /** `row_iter.next()` */
    method Next() returns (row: Option<Row>)
      requires Valid()
      modifies this`rowIter
      ensures Valid()
      ensures row.None? ==> old(rowIter) == [] && rowIter == []
      ensures row.Some? ==> old(rowIter) == [row.value] + rowIter && old(Undelivered()) == [row.value] + Undelivered()
      ensures row.Some? ==> old(Reachable()) == [row.value] + Reachable()
    {
      if rowIter == [] {
        return None;
      }
      row := Some(rowIter[0]);
      assert rowIter == [rowIter[0]] + rowIter[1..];
      assert rowIter + nextRows + RowsOf(packets) == [rowIter[0]] + (rowIter[1..] + nextRows + RowsOf(packets));
      assert rowIter + nextRows + UntilEmpty(packets) == [rowIter[0]] + (rowIter[1..] + nextRows + UntilEmpty(packets));
      rowIter := rowIter[1..];
    }

    function HasMultipleRows(): bool
      reads this
    {
      var isComplete := if IsComplete().Ok? then IsComplete().value else false;
      !isComplete || |nextRows| + |rowIter| > 1
    }

    /** Succeeds exactly if everything is there and one row is left; it is refused while packets are outstanding. */
    method IntoSingleRow() returns (r: Result<Row>)
      requires Valid()
      modifies this
      ensures r.Ok? <==> old(packets) == [] && |old(Undelivered())| == 1
      ensures r.Ok? ==> old(Undelivered()) == [r.value] && Undelivered() == []
    {
      assert packets == [] ==> RowsOf(packets) == [];
      if HasMultipleRows() {
        return Err(UsageError);
      }
      var row := NextRow();
      assert row.Ok?;
      if row.value.None? {
        return Err(UsageError);
      }
      return Ok(row.value.value);
    }
  }

  datatype Call = CallNextRow | CallFetchAll | CallTotalNumberOfRows

  /** Any interleaving of the calls hands out a prefix of the rows, once each and in order, and leaves the others. */
  method Run<Row>(rs: RsState<Row>, calls: seq<Call>) returns (r: Result<seq<Row>>)
    requires rs.Valid()
    modifies rs
    ensures r.Ok? ==> rs.Valid() && r.value + rs.Undelivered() == old(rs.Undelivered())
    ensures r.Ok? && old(rs.NonEmptyPackets()) && rs.Undelivered() != [] ==> |r.value| == NextRows(calls)
    ensures !old(rs.Broken()) ==> r.Ok?
  {
    hide RowsOf, UntilEmpty, RsState<Row>.Valid, RsState<Row>.NonEmptyPackets;
    hide RsState<Row>.Undelivered, RsState<Row>.Reachable, RsState<Row>.Broken;
    var out := [];
    for i := 0 to |calls|
      invariant rs.Valid() && out + rs.Undelivered() == old(rs.Undelivered())
      invariant old(rs.NonEmptyPackets()) ==> rs.NonEmptyPackets()
      invariant rs.Broken() ==> old(rs.Broken())
      invariant old(rs.NonEmptyPackets()) && rs.Undelivered() != [] ==> |out| == NextRows(calls[..i])
    {
      ghost var before := rs.Undelivered();
      assert calls[..i + 1][..i] == calls[..i];
      match calls[i]
      case CallNextRow =>
        BrokenCore(rs);
        var row := rs.NextRow();
        if row.Err? {
          return Err(row.error);
        }
        if row.value.Some? {
          assert out + before == (out + [row.value.value]) + rs.Undelivered();
          out := out + [row.value.value];
        }
      case CallFetchAll =>
        var all := rs.FetchAll();
        if all.Err? {
          return Err(all.error);
        }
      case CallTotalNumberOfRows =>
        var n := rs.TotalNumberOfRows();
        if n.Err? {
          return Err(n.error);
        }
        assert n.value == |before|;
    }
    assert calls[..|calls|] == calls;
    return Ok(out);
  }

  lemma BrokenCore<Row>(rs: RsState<Row>)
    ensures rs.core.Some? && !rs.core.value.isLastPacket && (rs.core.value.rowNotFound || rs.core.value.resultsetIsClosed) ==>
              rs.Broken()
  {
  }

  function NextRows(calls: seq<Call>): nat {
    if calls == [] then 0
    else NextRows(calls[..|calls| - 1]) + if calls[|calls| - 1].CallNextRow? then 1 else 0
  }

  /**
   * Iterating to the end hands out what is buffered and the rows of the packets before the first one without rows;
   * these are all rows exactly if no row follows that packet.
   */
  method Collect<Row>(rs: RsState<Row>) returns (r: Result<seq<Row>>)
    requires rs.Valid()
    modifies rs
    ensures r.Ok? ==> r.value == old(rs.Reachable()) && r.value + rs.Undelivered() == old(rs.Undelivered())
    ensures r.Ok? ==> rs.Valid() && rs.Undelivered() == old(BehindEmpty(rs.packets))
    ensures r.Ok? ==> (r.value == old(rs.Undelivered()) <==> old(BehindEmpty(rs.packets)) == [])
    ensures r.Ok? && old(rs.NonEmptyPackets()) ==> r.value == old(rs.Undelivered())
    ensures r.Err? <==> old(Breaks(rs.core, rs.packets))
  {
    hide RowsOf, UntilEmpty, BehindEmpty, RsState<Row>.Valid, RsState<Row>.NonEmptyPackets;
    hide RsState<Row>.Undelivered, RsState<Row>.Reachable, Breaks, RsState<Row>.Broken;
    ghost var all, reachable, behind := rs.Undelivered(), rs.Reachable(), BehindEmpty(rs.packets);
    rs.ReachableIsPrefix();
    var out := [];
    while true
      invariant rs.Valid()
      invariant out + rs.Undelivered() == all && out + rs.Reachable() == reachable
      invariant Breaks(rs.core, rs.packets) == old(Breaks(rs.core, rs.packets))
      decreases |rs.Undelivered()|
    {
      ghost var before, near := rs.Undelivered(), rs.Reachable();
      ghost var core, packets := rs.core, rs.packets;
      rs.LastMeansNone();
      BreaksStep(core, packets);
      var row := rs.NextRow();
      if row.Err? {
        return Err(row.error);
      }
      if row.value.None? {
        Remainder(out, rs.Undelivered(), behind);
        return Ok(out);
      }
      assert out + before == (out + [row.value.value]) + rs.Undelivered();
      assert out + near == (out + [row.value.value]) + rs.Reachable();
      out := out + [row.value.value];
    }
  }

  /** The packet received last is broken, or one that an iteration reaches. */
  ghost predicate Breaks<Row>(core: Option<Attributes>, packets: seq<Packet<Row>>) {
    || (core.Some? && !core.value.isLastPacket && (core.value.rowNotFound || core.value.resultsetIsClosed))
    || BreaksBeforeEmpty(packets)
  }

  lemma BreaksStep<Row>(core: Option<Attributes>, packets: seq<Packet<Row>>)
    requires packets != [] ==> core.Some? && !core.value.isLastPacket
    ensures core.Some? && !core.value.isLastPacket && (core.value.rowNotFound || core.value.resultsetIsClosed) ==>
              Breaks(core, packets)
    ensures packets == [] && (core.None? || core.value.isLastPacket) ==> !Breaks(core, packets)
    ensures packets != [] && !core.value.rowNotFound && !core.value.resultsetIsClosed ==>
              var a := packets[0].attributes;
              Breaks(core, packets) <==>
              packets[0].rows != [] && Breaks(if a.isLastPacket then None else Some(a), packets[1..])
  {
  }

  lemma Remainder<Row>(out: seq<Row>, left: seq<Row>, behind: seq<Row>)
    requires out + left == (out + []) + behind
    ensures left == behind
    ensures out == out + left <==> left == []
  {
    assert left == (out + left)[|out|..];
    assert behind == (out + behind)[|out|..];
  }

  /**
   * When `next_row` reports the end although rows are left, as it does exactly if nothing is `Reachable`: nothing is
   * buffered, the next packet is empty, and rows follow it.
   */
  lemma EarlyEnd<Row>(rs: RsState<Row>)
    ensures rs.Reachable() == [] && rs.Undelivered() != [] <==>
            && rs.rowIter == [] && rs.nextRows == []
            && rs.packets != [] && rs.packets[0].rows == [] && RowsOf(rs.packets[1..]) != []
  {
    rs.ReachableIsPrefix();
    if rs.rowIter == [] && rs.nextRows == [] {
      rs.EmptyBuffer();
    }
  }
}
