/** Request messages: src/protocol/request.rs and src/protocol/part.rs. */
module Request {
  import opened Wrappers
  import opened Unicode
  import opened Numbers
  import opened LittleEndian
  import V = HdbValue
  import A = AuthFields
  import O = Options

  const MESSAGE_HEADER_SIZE: nat := 32
  const SEGMENT_HEADER_SIZE: nat := 24
  const PART_HEADER_SIZE: nat := 16

  const CLIENT_CONTEXT: byte := 29

  /** The kinds of parts. All parts made of options look alike; those that only replies contain cannot be sent. */
  datatype Part =
    | Auth(fields: seq<seq<byte>>)
    | OptionPart(kind: byte, options: O.OptionMap, order: seq<byte>)
    | ClientInfo(entries: seq<(Text, Text)>)
    | Command(s: Text)
    | FetchSize(n: nat)
    | ResultSetId(id: nat)
    | StatementId(id: nat)
    | ReadLobRequest(locatorId: nat, offset: nat, length: nat)
    | WriteLobRequest(locatorId: nat, position: int, buf: seq<byte>, lastData: bool)
    | Parameters(rows: seq<seq<V.HdbValue>>)
    | ReplyPart(kind: byte)

  /** The descriptors of the input parameters, if the request belongs to a prepared statement. */
  type Descriptors = Option<seq<V.TypeId>>

  function Kind(p: Part): byte {
    match p
    case Auth(_) => 33
    case OptionPart(kind, _, _) => kind
    case ClientInfo(_) => 57
    case Command(_) => 3
    case FetchSize(_) => 45
    case ResultSetId(_) => 13
    case StatementId(_) => 10
    case ReadLobRequest(_, _, _) => 17
    case WriteLobRequest(_, _, _, _) => 28
    case Parameters(_) => 32
    case ReplyPart(kind) => kind
  }

  function Count(p: Part): Result<nat> {
    match p
    case OptionPart(kind, options, _) => Ok(if kind == CLIENT_CONTEXT then 1 else |options|)
    case ClientInfo(entries) => Ok(2 * |entries|)
    case Parameters(rows) => Ok(|rows|)
    case ReplyPart(_) => Err(IoError)
    case _ => Ok(1)
  }

  /** A hash map is iterated over keys that it has. */
  predicate Iterable(p: Part) {
    p.OptionPart? ==> forall i :: 0 <= i < |p.order| ==> p.order[i] in p.options
  }

  // ---- Body: size pass and emit pass ----

  function InfoSize(entries: seq<(Text, Text)>): nat {
    if entries == [] then 0
    else V.BinaryLength(|Cesu8(entries[0].0)|) + V.BinaryLength(|Cesu8(entries[0].1)|) + InfoSize(entries[1..])
  }

  function InfoBytes(entries: seq<(Text, Text)>): seq<byte> {
    if entries == [] then []
    else V.EmitLengthAndBytes(Cesu8(entries[0].0)) + V.EmitLengthAndBytes(Cesu8(entries[0].1)) + InfoBytes(entries[1..])
  }

  function RowsSize(rows: seq<seq<V.HdbValue>>, types: seq<V.TypeId>): Result<nat> {
    if rows == [] then Ok(0)
    else
      var first := V.RowSizeSpec(rows[0], types);
      if first.Err? then first
      else
        var others := RowsSize(rows[1..], types);
        if others.Err? then others else Ok(first.value + others.value)
  }

  function RowsBytes(rows: seq<seq<V.HdbValue>>, types: seq<V.TypeId>): Result<seq<byte>> {
    if rows == [] then Ok([])
    else
      var first := V.RowBytes(rows[0], types);
      if first.Err? then first
      else
        var others := RowsBytes(rows[1..], types);
        if others.Err? then others else Ok(first.value + others.value)
  }

  /** `body_size` without padding. */
  function BodySize(p: Part, d: Descriptors): Result<nat>
    requires Iterable(p)
  {
    match p
    case Auth(fields) => Ok(2 + A.SizeSpec(fields))
    case OptionPart(_, options, order) => Ok(O.EntriesSize(options, order))
    case ClientInfo(entries) => Ok(InfoSize(entries))
    case Command(s) => Ok(|Cesu8(s)|)
    case FetchSize(_) => Ok(4)
    case ResultSetId(_) => Ok(8)
    case StatementId(_) => Ok(8)
    case ReadLobRequest(_, _, _) => Ok(24)
    case WriteLobRequest(_, _, buf, _) => Ok(21 + |buf|)
    case Parameters(rows) => if d.None? then Err(IoError) else RowsSize(rows, d.value)
    case ReplyPart(_) => Err(IoError)
  }

  /** `emit_body` without padding. */
  function Body(p: Part, d: Descriptors): Result<seq<byte>>
    requires Iterable(p)
  {
    match p
    case Auth(fields) => A.AuthBytes(fields)
    case OptionPart(_, options, order) => Ok(O.EmitEntries(options, order))
    case ClientInfo(entries) => Ok(InfoBytes(entries))
    case Command(s) => Ok(Cesu8(s))
    case FetchSize(n) => Ok(Digits(n, 4))
    case ResultSetId(id) => Ok(Digits(id, 8))
    case StatementId(id) => Ok(Digits(id, 8))
    case ReadLobRequest(locatorId, offset, length) =>
      Ok(Digits(locatorId, 8) + Digits(offset, 8) + Digits(length, 4) + Digits(0, 4))
    case WriteLobRequest(locatorId, position, buf, lastData) =>
      Ok(Digits(locatorId, 8) + [if lastData then 6 else 2] + Digits(position, 8) + Digits(|buf|, 4) + buf)
    case Parameters(rows) => if d.None? then Err(IoError) else RowsBytes(rows, d.value)
    case ReplyPart(_) => Err(IoError)
  }

  /** The parts whose size is computed right: no authentication field over 250 bytes, no FIXED12 over 96 bits. */
  predicate WellSized(p: Part, d: Descriptors) {
    match p
    case Auth(fields) => forall i :: 0 <= i < |fields| ==> |fields[i]| <= 250
    case Parameters(rows) => d.Some? ==> RowsWellSized(rows, d.value)
    case _ => true
  }

  lemma {:induction false} InfoSizeAgrees(entries: seq<(Text, Text)>)
    ensures InfoSize(entries) == |InfoBytes(entries)|
  {
    hide Encode, V.EmitLengthAndBytes, V.BinaryLength;
    if entries != [] {
      V.BinaryLengthAgrees(Cesu8(entries[0].0));
      V.BinaryLengthAgrees(Cesu8(entries[0].1));
      InfoSizeAgrees(entries[1..]);
    }
  }

  predicate RowsWellSized(rows: seq<seq<V.HdbValue>>, types: seq<V.TypeId>) {
    forall i :: 0 <= i < |rows| ==> V.RowWellSized(rows[i], types)
  }

  lemma {:induction false} RowsSizeAgrees(rows: seq<seq<V.HdbValue>>, types: seq<V.TypeId>)
    requires RowsBytes(rows, types).Ok?
    ensures RowsSize(rows, types).Ok? && RowsSize(rows, types).value <= |RowsBytes(rows, types).value|
    ensures RowsSize(rows, types).value == |RowsBytes(rows, types).value| <==> RowsWellSized(rows, types)
  {
    hide V.RowBytes, V.RowSizeSpec, V.RowWellSized;
    if rows != [] {
      V.RowSizeAgrees(rows[0], types);
      RowsSizeAgrees(rows[1..], types);
      assert forall i :: 0 <= i < |rows| ==> rows[i] == if i == 0 then rows[0] else rows[1..][i - 1];
      assert forall i :: 0 <= i < |rows[1..]| ==> rows[1..][i] == rows[i + 1];
    }
  }

  /**
   * The size pass and the emit pass agree on a part that can be sent exactly if it is well-sized; if not, more is
   * written than was announced.
   */
  lemma BodySizeAgrees(p: Part, d: Descriptors)
    requires Iterable(p) && Body(p, d).Ok?
    ensures BodySize(p, d).Ok? && BodySize(p, d).value <= |Body(p, d).value|
    ensures BodySize(p, d).value == |Body(p, d).value| <==> WellSized(p, d)
  {
    hide Digits, Encode, A.FieldsBytes, A.SizeSpec, O.EmitEntries, O.EntriesSize;
    hide RowsBytes, RowsSize, InfoBytes, InfoSize, RowsWellSized;
    match p
    case Auth(fields) => A.SizeAgrees(fields);
    case OptionPart(_, options, order) => O.EntriesSizeAgrees(options, order);
    case ClientInfo(entries) => InfoSizeAgrees(entries);
    case Parameters(rows) => RowsSizeAgrees(rows, d.value);
    case _ =>
  }

  // ---- Parts ----

  function Padsize(size: nat): nat {
    if size == 0 then 0 else 7 - (size - 1) % 8
  }

  lemma PaddedIsAligned(size: nat)
    ensures Padsize(size) < 8 && (size + Padsize(size)) % 8 == 0
  {
  }

  /** The two count fields: small counts in the first, big ones in the second. */
  function CountBytes(count: nat): Result<seq<byte>> {
    if count < 32_767 then Ok(Digits(count, 2) + Digits(0, 4))
    else if count <= 0x7FFF_FFFF then Ok(Digits(-1, 2) + Digits(count, 4))
    else Err(IoError)
  }

  function ParseCount(b: seq<byte>): int
    requires |b| == 6
  {
    var (i16, i32) := (SignedValue(b[..2]), SignedValue(b[2..]));
    if i16 > i32 then i16 else i32
  }

  lemma CountRoundTrip(count: nat)
    ensures CountBytes(count).Ok? <==> count <= 0x7FFF_FFFF
    ensures CountBytes(count).Ok? ==> |CountBytes(count).value| == 6 && ParseCount(CountBytes(count).value) == count
  {
    hide Digits, SignedValue, Pow256;
    Pow256Values();
    if count < 32_767 {
      SignedRoundTrip(count, 2);
      SignedRoundTrip(0, 4);
      var b := Digits(count, 2) + Digits(0, 4);
      assert b[..2] == Digits(count, 2) && b[2..] == Digits(0, 4);
    } else if count <= 0x7FFF_FFFF {
      SignedRoundTrip(-1, 2);
      SignedRoundTrip(count, 4);
      var b := Digits(-1, 2) + Digits(count, 4);
      assert b[..2] == Digits(-1, 2) && b[2..] == Digits(count, 4);
    }
  }

  /** `Part::size` with padding. */
  function PartSize(p: Part, d: Descriptors): Result<nat>
    requires Iterable(p)
  {
    var size := BodySize(p, d);
    if size.Err? then size else Ok(PART_HEADER_SIZE + size.value + Padsize(size.value))
  }

  /** Header, body and padding of a part, when `remaining` bytes of the message are left. */
  function PartBytes(p: Part, d: Descriptors, remaining: nat): Result<seq<byte>>
    requires Iterable(p)
  {
    var (count, size, body) := (Count(p), BodySize(p, d), Body(p, d));
    if count.Err? || CountBytes(count.value).Err? || size.Err? || body.Err? then Err(IoError)
    else
      Ok([Kind(p), 0] + CountBytes(count.value).value + Digits(size.value, 4) + Digits(remaining, 4)
         + body.value + seq(Padsize(size.value), _ => 0))
  }

  /** A part takes its computed, padded size exactly if it is well-sized, and more if not. */
  lemma PartBytesLength(p: Part, d: Descriptors, remaining: nat)
    requires Iterable(p) && PartBytes(p, d, remaining).Ok?
    ensures PartSize(p, d).Ok? && PartSize(p, d).value % 8 == 0
    ensures PartSize(p, d).value <= |PartBytes(p, d, remaining).value|
    ensures PartSize(p, d).value == |PartBytes(p, d, remaining).value| <==> WellSized(p, d)
  {
    hide Digits, Body, BodySize, WellSized, Count;
    BodySizeAgrees(p, d);
    PaddedIsAligned(BodySize(p, d).value);
  }

  /**
   * What a reader of the part header finds: the kind, the count, the length as computed, and what is left. The
   * length is that of the body exactly if the part is well-sized.
   */
  lemma PartHeaderRoundTrip(p: Part, d: Descriptors, remaining: nat)
    requires Iterable(p) && PartBytes(p, d, remaining).Ok?
    requires remaining < 0x8000_0000 && PartSize(p, d).value < 0x8000_0000
    ensures var b := PartBytes(p, d, remaining).value;
            && |b| >= 16 + |Body(p, d).value|
            && b[0] == Kind(p) && b[1] == 0
            && Ok(ParseCount(b[2..8])) == Count(p)
            && Ok(SignedValue(b[8..12])) == BodySize(p, d)
            && (SignedValue(b[8..12]) == |Body(p, d).value| <==> WellSized(p, d))
            && SignedValue(b[12..16]) == remaining
            && b[16..16 + |Body(p, d).value|] == Body(p, d).value
            && (forall i :: 16 + |Body(p, d).value| <= i < |b| ==> b[i] == 0)
  {
    hide Digits, Body, BodySize, WellSized, Count, SignedValue, ParseCount, CountBytes, Pow256;
    BodySizeAgrees(p, d);
    var count, size, body := Count(p).value, BodySize(p, d).value, Body(p, d).value;
    CountRoundTrip(count);
    Pow256Values();
    SignedRoundTrip(size, 4);
    SignedRoundTrip(remaining, 4);
    var b := PartBytes(p, d, remaining).value;
    assert b[2..8] == CountBytes(count).value;
    assert b[8..12] == Digits(size, 4) && b[12..16] == Digits(remaining, 4);
    assert b[16..16 + |body|] == body;
  }

  /** Which parts can be sent. */
  ghost predicate CanBeSent(p: Part, d: Descriptors) {
    match p
    case Auth(fields) => forall i :: 0 <= i < |fields| ==> |fields[i]| <= 65_535
    case OptionPart(kind, options, _) => kind == 29 || |options| <= 0x7FFF_FFFF
    case ClientInfo(entries) => 2 * |entries| <= 0x7FFF_FFFF
    case Parameters(rows) =>
      d.Some? && |rows| <= 0x7FFF_FFFF && forall i :: 0 <= i < |rows| ==> V.RowCanBeSent(rows[i], d.value)
    case ReplyPart(_) => false
    case _ => true
  }

  lemma {:induction false} RowsSucceedIff(rows: seq<seq<V.HdbValue>>, types: seq<V.TypeId>)
    ensures RowsBytes(rows, types).Ok? <==> forall i :: 0 <= i < |rows| ==> V.RowCanBeSent(rows[i], types)
  {
    hide V.RowBytes, V.RowCanBeSent, V.RowSizeSpec, V.RowHasSize;
    if rows != [] {
      V.RowSucceedsIff(rows[0], types);
      RowsSucceedIff(rows[1..], types);
      assert forall i :: 0 <= i < |rows| ==> rows[i] == if i == 0 then rows[0] else rows[1..][i - 1];
      assert forall i :: 0 <= i < |rows[1..]| ==> rows[1..][i] == rows[i + 1];
    }
  }

  lemma BodySucceedsIff(p: Part, d: Descriptors)
    requires Iterable(p)
    ensures Count(p).Ok? && CountBytes(Count(p).value).Ok? && Body(p, d).Ok? <==> CanBeSent(p, d)
  {
    hide Digits, Encode, A.FieldsBytes, O.EmitEntries, RowsBytes, InfoBytes, V.RowCanBeSent;
    match p
    case Auth(fields) => A.SucceedsIff(fields);
    case Parameters(rows) => if d.Some? { RowsSucceedIff(rows, d.value); }
    case _ =>
  }

  lemma SucceedsIff(p: Part, d: Descriptors, remaining: nat)
    requires Iterable(p)
    ensures PartBytes(p, d, remaining).Ok? <==> CanBeSent(p, d)
    ensures CanBeSent(p, d) ==> PartSize(p, d).Ok?
  {
    hide Digits, Body, BodySize, Count, CountBytes, CanBeSent;
    BodySucceedsIff(p, d);
    if CanBeSent(p, d) {
      BodySizeAgrees(p, d);
    }
  }

  // ---- The whole message ----

  predicate AllIterable(parts: seq<Part>) {
    forall i :: 0 <= i < |parts| ==> Iterable(parts[i])
  }

  /** Sum of the sizes of the first `n` parts. */
  function SizeOfFirst(parts: seq<Part>, d: Descriptors, n: nat): Result<nat>
    requires AllIterable(parts) && n <= |parts|
  {
    if n == 0 then Ok(0)
    else
      var (front, last) := (SizeOfFirst(parts, d, n - 1), PartSize(parts[n - 1], d));
      if front.Err? then front else if last.Err? then last else Ok(front.value + last.value)
  }

  lemma {:induction false} SizeOfFirstMonotone(parts: seq<Part>, d: Descriptors, m: nat, n: nat)
    requires AllIterable(parts) && m <= n <= |parts|
    ensures SizeOfFirst(parts, d, n).Ok? ==>
              SizeOfFirst(parts, d, m).Ok? && SizeOfFirst(parts, d, m).value <= SizeOfFirst(parts, d, n).value
    decreases n - m
  {
    hide PartSize;
    if m < n {
      SizeOfFirstMonotone(parts, d, m, n - 1);
    }
  }

  /** `seg_size` */
  method SegSize(parts: seq<Part>, d: Descriptors) returns (r: Result<nat>)
    requires AllIterable(parts)
    ensures r.Ok? <==> SizeOfFirst(parts, d, |parts|).Ok?
    ensures r.Ok? ==> r.value == SEGMENT_HEADER_SIZE + SizeOfFirst(parts, d, |parts|).value
  {
    hide PartSize;
    var len := SEGMENT_HEADER_SIZE;
    for i := 0 to |parts|
      invariant SizeOfFirst(parts, d, i) == Ok(len - SEGMENT_HEADER_SIZE) && len >= SEGMENT_HEADER_SIZE
    {
      var size := PartSize(parts[i], d);
      if size.Err? {
        SizeOfFirstMonotone(parts, d, i + 1, |parts|);
        return size;
      }
      len := len + size.value;
    }
    return Ok(len);
  }

  function Header(sessionId: int, seqNumber: int, autoCommit: bool, requestType: int, commandOptions: int,
                  parts: nat, varpart: nat): (w: seq<byte>)
    ensures |w| == 56
  {
    Digits(sessionId, 8) + Digits(seqNumber, 4) + Digits(varpart, 4) + Digits(varpart, 4) + Digits(1, 2)
    + seq(10, _ => 0)
    + Digits(varpart, 4) + Digits(0, 4) + Digits(parts, 2) + Digits(1, 2)
    + [1] + Digits(requestType, 1) + [if autoCommit then 1 else 0] + Digits(commandOptions, 1)
    + seq(8, _ => 0)
  }

  /** Where part `i` starts in the message. */
  ghost function Start(parts: seq<Part>, d: Descriptors, i: nat): nat
    requires AllIterable(parts) && i <= |parts| && SizeOfFirst(parts, d, i).Ok?
  {
    MESSAGE_HEADER_SIZE + SEGMENT_HEADER_SIZE + SizeOfFirst(parts, d, i).value
  }

  /** Part `i` of the message starts aligned, and is written with exactly the bytes that are still to come. */
  ghost predicate PartInPlace(w: seq<byte>, parts: seq<Part>, d: Descriptors, i: nat, total: nat)
    requires AllIterable(parts) && i < |parts|
  {
    && SizeOfFirst(parts, d, i + 1).Ok? && SizeOfFirst(parts, d, i).Ok?
    && Start(parts, d, i) % 8 == 0
    && Start(parts, d, i) <= Start(parts, d, i + 1) <= |w| && Start(parts, d, i) <= total
    && Ok(w[Start(parts, d, i)..Start(parts, d, i + 1)]) == PartBytes(parts[i], d, total - Start(parts, d, i))
  }

  lemma PartStaysInPlace(w: seq<byte>, more: seq<byte>, parts: seq<Part>, d: Descriptors, i: nat, total: nat)
    requires AllIterable(parts) && i < |parts| && PartInPlace(w, parts, d, i, total)
    ensures PartInPlace(w + more, parts, d, i, total)
  {
    hide PartBytes, SizeOfFirst;
    var a, b := Start(parts, d, i), Start(parts, d, i + 1);
    assert (w + more)[a..b] == w[a..b];
  }

  lemma PartIsPlaced(w: seq<byte>, part: seq<byte>, parts: seq<Part>, d: Descriptors, i: nat, total: nat)
    requires AllIterable(parts) && i < |parts| && SizeOfFirst(parts, d, i + 1).Ok? && SizeOfFirst(parts, d, i).Ok?
    requires |w| == Start(parts, d, i) <= total && |w| % 8 == 0 && WellSized(parts[i], d)
    requires PartBytes(parts[i], d, total - |w|) == Ok(part)
    ensures PartInPlace(w + part, parts, d, i, total)
    ensures |w + part| % 8 == 0
  {
    hide PartBytes, PartSize, WellSized, SizeOfFirst;
    PartBytesLength(parts[i], d, total - |w|);
    StartStep(parts, d, i);
    var all := w + part;
    assert Start(parts, d, i) == |w| && Start(parts, d, i + 1) == |all|;
    assert all[|w|..|all|] == part;
  }

  /** The message as a whole. */
  ghost predicate Framed(w: seq<byte>, parts: seq<Part>, d: Descriptors)
    requires AllIterable(parts)
  {
    && SizeOfFirst(parts, d, |parts|).Ok?
    && |w| == Start(parts, d, |parts|)
    && (forall i :: 0 <= i < |parts| ==> PartInPlace(w, parts, d, i, |w|))
    && LeValue(w[12..16]) == LeValue(w[16..20]) == LeValue(w[32..36]) == |w| - MESSAGE_HEADER_SIZE
  }

  /** The first `n` parts are well-sized. */
  ghost predicate FirstWellSized(parts: seq<Part>, d: Descriptors, n: nat)
    requires n <= |parts|
  {
    forall k :: 0 <= k < n ==> WellSized(parts[k], d)
  }

  lemma StartStep(parts: seq<Part>, d: Descriptors, i: nat)
    requires AllIterable(parts) && i < |parts| && SizeOfFirst(parts, d, i + 1).Ok?
    ensures SizeOfFirst(parts, d, i).Ok? && PartSize(parts[i], d).Ok?
    ensures Start(parts, d, i + 1) == Start(parts, d, i) + PartSize(parts[i], d).value
  {
    hide PartSize;
  }

  /** One more part: what was written stays as long as announced exactly if the part is well-sized. */
  lemma LengthStep(written: nat, part: seq<byte>, parts: seq<Part>, d: Descriptors, i: nat, remaining: nat)
    requires AllIterable(parts) && i < |parts| && SizeOfFirst(parts, d, i).Ok? && SizeOfFirst(parts, d, i + 1).Ok?
    requires PartBytes(parts[i], d, remaining) == Ok(part)
    requires written >= Start(parts, d, i) && (written == Start(parts, d, i) <==> FirstWellSized(parts, d, i))
    ensures written + |part| >= Start(parts, d, i + 1)
    ensures written + |part| == Start(parts, d, i + 1) <==> FirstWellSized(parts, d, i + 1)
    ensures Start(parts, d, i + 1) == Start(parts, d, i) + PartSize(parts[i], d).value
  {
    hide PartBytes, PartSize, WellSized, SizeOfFirst;
    StartStep(parts, d, i);
    PartBytesLength(parts[i], d, remaining);
  }

  /**
   * `Request::emit`. The remainder is a `u32`: it never underflows and is 0 in the end. The message is never shorter
   * than announced, it has exactly the announced length if and only if all parts are well-sized, and then every
   * remainder field is right.
   */
  method Emit(sessionId: int, seqNumber: int, autoCommit: bool, requestType: int, commandOptions: int,
              parts: seq<Part>, d: Descriptors) returns (r: Result<seq<byte>>, remaining: nat)
    requires AllIterable(parts)
    requires SizeOfFirst(parts, d, |parts|).Ok? ==> Start(parts, d, |parts|) < 0x8000_0000
    ensures r.Ok? <==> forall i :: 0 <= i < |parts| ==> CanBeSent(parts[i], d)
    ensures r.Ok? ==>
              && SizeOfFirst(parts, d, |parts|).Ok?
              && Header(sessionId, seqNumber, autoCommit, requestType, commandOptions, |parts|,
                        Start(parts, d, |parts|) - MESSAGE_HEADER_SIZE) <= r.value
              && |r.value| >= Start(parts, d, |parts|)
              && (|r.value| == Start(parts, d, |parts|) <==> FirstWellSized(parts, d, |parts|))
              && remaining == 0
    ensures r.Ok? ==>
              forall k :: 0 <= k < |parts| && FirstWellSized(parts, d, k + 1) ==>
                PartInPlace(r.value, parts, d, k, Start(parts, d, |parts|))
    ensures r.Ok? && FirstWellSized(parts, d, |parts|) ==> Framed(r.value, parts, d)
  {
    hide PartBytes, PartSize, WellSized, Digits, LeValue, PartInPlace, Header, FirstWellSized, CanBeSent;
    remaining := 0;
    AllSucceed(parts, d, |parts|);
    var segSize := SegSize(parts, d);
    if segSize.Err? {
      return Err(segSize.error), remaining;
    }
    var varpartSize := segSize.value;
    var totalSize := MESSAGE_HEADER_SIZE + varpartSize;
    remaining := totalSize - MESSAGE_HEADER_SIZE;
    var w := Header(sessionId, seqNumber, autoCommit, requestType, commandOptions, |parts|, varpartSize);
    ghost var head := w;
    remaining := remaining - SEGMENT_HEADER_SIZE;
    NoneIllSized(parts, d);
    for i := 0 to |parts|
      invariant SizeOfFirst(parts, d, i).Ok? && remaining == totalSize - Start(parts, d, i)
      invariant forall k :: 0 <= k < i ==> CanBeSent(parts[k], d)
      invariant head <= w
      invariant |w| >= Start(parts, d, i) && (|w| == Start(parts, d, i) <==> FirstWellSized(parts, d, i))
      invariant FirstWellSized(parts, d, i) ==> |w| % 8 == 0
      invariant forall k :: 0 <= k < i && FirstWellSized(parts, d, k + 1) ==> PartInPlace(w, parts, d, k, totalSize)
    {
      SizeOfFirstMonotone(parts, d, i + 1, |parts|);
      var part := PartBytes(parts[i], d, remaining);
      SucceedsIff(parts[i], d, remaining);
      if part.Err? {
        return part, remaining;
      }
      LengthStep(|w|, part.value, parts, d, i, remaining);
      LastWellSized(parts, d, i);
      forall k | 0 <= k < i && FirstWellSized(parts, d, k + 1) ensures PartInPlace(w + part.value, parts, d, k, totalSize) {
        PartStaysInPlace(w, part.value, parts, d, k, totalSize);
      }
      if FirstWellSized(parts, d, i + 1) {
        PartIsPlaced(w, part.value, parts, d, i, totalSize);
      }
      w := w + part.value;
      remaining := remaining - Subtracted(parts[i], d);
    }
    HeaderFields(sessionId, seqNumber, autoCommit, requestType, commandOptions, |parts|, varpartSize, w);
    if FirstWellSized(parts, d, |parts|) {
      forall k | 0 <= k < |parts| ensures PartInPlace(w, parts, d, k, totalSize) {
        PrefixWellSized(parts, d, k + 1);
      }
    }
    return Ok(w), remaining;
  }

  lemma NoneIllSized(parts: seq<Part>, d: Descriptors)
    ensures FirstWellSized(parts, d, 0)
  {
  }

  lemma LastWellSized(parts: seq<Part>, d: Descriptors, i: nat)
    requires i < |parts|
    ensures FirstWellSized(parts, d, i + 1) <==> FirstWellSized(parts, d, i) && WellSized(parts[i], d)
  {
    hide WellSized;
  }

  /** What `emit` and `emit_body` take off the remainder, computed from the size pass. */
  function Subtracted(p: Part, d: Descriptors): nat
    requires Iterable(p) && PartSize(p, d).Ok?
    ensures Subtracted(p, d) == PartSize(p, d).value
  {
    var size := BodySize(p, d).value;
    PART_HEADER_SIZE + size + Padsize(size)
  }

  /** If all parts can be sent, they all have a size. */
  lemma {:induction false} AllSucceed(parts: seq<Part>, d: Descriptors, n: nat)
    requires AllIterable(parts) && n <= |parts|
    ensures (forall i :: 0 <= i < n ==> CanBeSent(parts[i], d)) ==> SizeOfFirst(parts, d, n).Ok?
  {
    hide PartBytes, PartSize, CanBeSent;
    if n > 0 {
      AllSucceed(parts, d, n - 1);
      SucceedsIff(parts[n - 1], d, 0);
    }
  }

  lemma PrefixWellSized(parts: seq<Part>, d: Descriptors, n: nat)
    requires n <= |parts| && FirstWellSized(parts, d, |parts|)
    ensures FirstWellSized(parts, d, n)
  {
    hide WellSized;
  }

  lemma HeaderFields(sessionId: int, seqNumber: int, autoCommit: bool, requestType: int, commandOptions: int,
                     parts: nat, varpart: nat, w: seq<byte>)
    requires varpart < 0x8000_0000
    requires Header(sessionId, seqNumber, autoCommit, requestType, commandOptions, parts, varpart) <= w
    ensures |w| >= 56 && LeValue(w[12..16]) == LeValue(w[16..20]) == LeValue(w[32..36]) == varpart
  {
    hide Digits, LeValue, Pow256;
    Pow256Values();
    UnsignedRoundTrip(varpart, 4);
    var h := Header(sessionId, seqNumber, autoCommit, requestType, commandOptions, parts, varpart);
    assert w[..56] == h;
    assert w[12..16] == w[..56][12..16] == h[12..16] == Digits(varpart, 4);
    assert w[16..20] == w[..56][16..20] == h[16..20] == Digits(varpart, 4);
    assert w[32..36] == w[..56][32..36] == h[32..36] == Digits(varpart, 4);
  }

  /** A reader of the two headers finds every field, each in its place. */
  lemma HeaderRoundTrip(sessionId: int, seqNumber: int, autoCommit: bool, requestType: int, commandOptions: int,
                        parts: nat, varpart: nat)
    requires FitsSigned(sessionId, 8) && FitsSigned(seqNumber, 4) && FitsSigned(requestType, 1)
    requires 0 <= commandOptions < 256 && parts < 32_768 && varpart < 0x8000_0000
    ensures var h := Header(sessionId, seqNumber, autoCommit, requestType, commandOptions, parts, varpart);
            && SignedValue(h[0..8]) == sessionId && SignedValue(h[8..12]) == seqNumber
            && SignedValue(h[40..42]) == parts && SignedValue(h[45..46]) == requestType
            && h[46] == (if autoCommit then 1 else 0) && LeValue(h[47..48]) == commandOptions
            && SignedValue(h[20..22]) == 1 && SignedValue(h[36..40]) == 0 && SignedValue(h[42..44]) == 1 && h[44] == 1
            && LeValue(h[12..16]) == LeValue(h[16..20]) == SignedValue(h[32..36]) == varpart
            && (forall i :: 22 <= i < 32 || 48 <= i < 56 ==> h[i] == 0)
  {
    hide Digits, LeValue, SignedValue, Pow256;
    Pow256Values();
    var h := Header(sessionId, seqNumber, autoCommit, requestType, commandOptions, parts, varpart);
    SignedRoundTrip(sessionId, 8);
    SignedRoundTrip(seqNumber, 4);
    SignedRoundTrip(parts, 2);
    SignedRoundTrip(requestType, 1);
    UnsignedRoundTrip(commandOptions, 1);
    UnsignedRoundTrip(varpart, 4);
    SignedRoundTrip(varpart, 4);
    SignedRoundTrip(1, 2);
    SignedRoundTrip(0, 4);
    assert h[12..16] == Digits(varpart, 4) && h[16..20] == Digits(varpart, 4) && h[32..36] == Digits(varpart, 4);
    assert h[20..22] == Digits(1, 2) && h[36..40] == Digits(0, 4) && h[42..44] == Digits(1, 2);
    assert h[0..8] == Digits(sessionId, 8) && h[8..12] == Digits(seqNumber, 4);
    assert h[40..42] == Digits(parts, 2) && h[45..46] == Digits(requestType, 1);
    assert h[47..48] == Digits(commandOptions, 1);
  }
}
