/** What the receiver of a request reads: the parts of the message one after the other, and then the body of each. */
module RequestReader {
  import opened Wrappers
  import opened Unicode
  import opened Numbers
  import opened LittleEndian
  import opened Cesu8Util
  import opened Request
  import V = HdbValue
  import A = AuthFields
  import O = Options

  // ---- Walking over the parts ----

  /** What the reader of a part gets. */
  datatype Found = Found(kind: byte, count: int, body: seq<byte>)

  /**
   * A reader of `n` parts from byte `at` on, advancing as `Part::parse` does: the header, as many bytes as it says,
   * and the padding. The result includes where it ended.
   */
  function Walk(w: seq<byte>, at: nat, n: nat): Result<(seq<Found>, nat)>
    decreases n
  {
    if n == 0 then Ok(([], at))
    else if at + PART_HEADER_SIZE > |w| then Err(IoError)
    else
      var argSize := SignedValue(w[at + 8..at + 12]);
      if argSize < 0 || at + PART_HEADER_SIZE + argSize + (7 - (argSize + 7) % 8) > |w| then Err(IoError)
      else
        var body := w[at + PART_HEADER_SIZE..at + PART_HEADER_SIZE + argSize];
        var others := Walk(w, at + PART_HEADER_SIZE + argSize + (7 - (argSize + 7) % 8), n - 1);
        if others.Err? then others
        else Ok(([Found(w[at], ParseCount(w[at + 2..at + 8]), body)] + others.value.0, others.value.1))
  }

  /** What there is to be found from part `i` on. */
  ghost function Contents(parts: seq<Part>, d: Descriptors, i: nat): seq<Found>
    requires AllIterable(parts) && i <= |parts|
    requires forall k :: i <= k < |parts| ==> Count(parts[k]).Ok? && Body(parts[k], d).Ok?
    decreases |parts| - i
  {
    if i == |parts| then []
    else [Found(Kind(parts[i]), Count(parts[i]).value, Body(parts[i], d).value)] + Contents(parts, d, i + 1)
  }

  /** What a reader finds at `at`, with the next part at `to`. */
  ghost predicate Reads(w: seq<byte>, at: nat, found: Found, to: nat) {
    && at + PART_HEADER_SIZE <= to <= |w|
    && w[at] == found.kind
    && ParseCount(w[at + 2..at + 8]) == found.count
    && SignedValue(w[at + 8..at + 12]) == |found.body|
    && at + PART_HEADER_SIZE + |found.body| + (7 - (|found.body| + 7) % 8) == to
    && w[at + PART_HEADER_SIZE..at + PART_HEADER_SIZE + |found.body|] == found.body
  }

  /** A well-sized part, read by itself. */
  lemma ReadsPart(p: Part, d: Descriptors, remaining: nat)
    requires Iterable(p) && PartBytes(p, d, remaining).Ok? && WellSized(p, d)
    requires remaining < 0x8000_0000 && PartSize(p, d).value < 0x8000_0000
    ensures Count(p).Ok? && Body(p, d).Ok?
    ensures var b := PartBytes(p, d, remaining).value;
            Reads(b, 0, Found(Kind(p), Count(p).value, Body(p, d).value), |b|)
  {
    PartHeaderRoundTrip(p, d, remaining);
    PartBytesLength(p, d, remaining);
    BodySizeAgrees(p, d);
    hide PartBytes, Body, Count, WellSized, BodySize, SignedValue, ParseCount;
    SamePadding(|Body(p, d).value|);
  }

  lemma SamePadding(size: nat)
    ensures Padsize(size) == 7 - (size + 7) % 8
  {
  }

  lemma Subslice(w: seq<byte>, at: nat, to: nat, i: nat, j: nat)
    requires i <= j <= to - at && to <= |w|
    ensures w[at..to][i..j] == w[at + i..at + j]
  {
    assert forall k :: 0 <= k < j - i ==> w[at..to][i..j][k] == w[at + i..at + j][k];
  }

  lemma ReadsInPlace(w: seq<byte>, at: nat, to: nat, found: Found)
    requires at <= to <= |w| && Reads(w[at..to], 0, found, to - at)
    ensures Reads(w, at, found, to)
  {
    hide ParseCount, SignedValue;
    Subslice(w, at, to, 2, 8);
    Subslice(w, at, to, 8, 12);
    Subslice(w, at, to, 16, 16 + |found.body|);
    assert w[at] == w[at..to][0];
    assert ParseCount(w[at..to][2..8]) == found.count && SignedValue(w[at..to][8..12]) == |found.body|;
  }

  lemma WalkStep(w: seq<byte>, at: nat, n: nat, found: Found, to: nat)
    requires n > 0 && Reads(w, at, found, to) && Walk(w, to, n - 1).Ok?
    ensures var others := Walk(w, to, n - 1).value;
            Walk(w, at, n) == Ok(([found] + others.0, others.1))
  {
    hide ParseCount, SignedValue;
  }

  lemma PlacedPartIsRead(w: seq<byte>, parts: seq<Part>, d: Descriptors, i: nat)
    requires AllIterable(parts) && i < |parts| && PartInPlace(w, parts, d, i, |w|) && |w| < 0x8000_0000
    ensures Count(parts[i]).Ok? && Body(parts[i], d).Ok?
    ensures var found := Found(Kind(parts[i]), Count(parts[i]).value, Body(parts[i], d).value);
            Reads(w, Start(parts, d, i), found, Start(parts, d, i + 1))
  {
    hide PartBytes, PartSize, Body, Count, WellSized, BodySize, Reads, SizeOfFirst;
    var at, to, p := Start(parts, d, i), Start(parts, d, i + 1), parts[i];
    PartBytesLength(p, d, |w| - at);
    StartStep(parts, d, i);
    ReadsPart(p, d, |w| - at);
    ReadsInPlace(w, at, to, Found(Kind(p), Count(p).value, Body(p, d).value));
  }

  lemma {:induction false} WalkFrom(w: seq<byte>, parts: seq<Part>, d: Descriptors, i: nat)
    requires AllIterable(parts) && i <= |parts| && Framed(w, parts, d) && |w| < 0x8000_0000
    ensures SizeOfFirst(parts, d, i).Ok?
    ensures forall k :: i <= k < |parts| ==> Count(parts[k]).Ok? && Body(parts[k], d).Ok?
    ensures Walk(w, Start(parts, d, i), |parts| - i) == Ok((Contents(parts, d, i), |w|))
    decreases |parts| - i
  {
    hide Body, Count, LeValue, PartInPlace, SizeOfFirst, Reads, Walk, Contents;
    SizeOfFirstMonotone(parts, d, i, |parts|);
    if i < |parts| {
      WalkFrom(w, parts, d, i + 1);
      PlacedPartIsRead(w, parts, d, i);
      var found := ContentsStep(parts, d, i);
      WalkStep(w, Start(parts, d, i), |parts| - i, found, Start(parts, d, i + 1));
    } else {
      WalkEnds(w, parts, d);
    }
  }

  lemma ContentsStep(parts: seq<Part>, d: Descriptors, i: nat) returns (found: Found)
    requires AllIterable(parts) && i < |parts|
    requires forall k :: i <= k < |parts| ==> Count(parts[k]).Ok? && Body(parts[k], d).Ok?
    ensures found == Found(Kind(parts[i]), Count(parts[i]).value, Body(parts[i], d).value)
    ensures Contents(parts, d, i) == [found] + Contents(parts, d, i + 1)
  {
    hide Body, Count;
    found := Found(Kind(parts[i]), Count(parts[i]).value, Body(parts[i], d).value);
  }

  /** A reader that starts behind the headers of a message finds exactly its parts, and stops at the end. */
  lemma WalkFindsParts(w: seq<byte>, parts: seq<Part>, d: Descriptors)
    requires AllIterable(parts) && Framed(w, parts, d) && |w| < 0x8000_0000
    ensures forall k :: 0 <= k < |parts| ==> Count(parts[k]).Ok? && Body(parts[k], d).Ok?
    ensures Walk(w, MESSAGE_HEADER_SIZE + SEGMENT_HEADER_SIZE, |parts|) == Ok((Contents(parts, d, 0), |w|))
  {
    hide Walk, Contents, Framed, Body, Count;
    WalkFrom(w, parts, d, 0);
    assert SizeOfFirst(parts, d, 0) == Ok(0);
  }

  lemma WalkEnds(w: seq<byte>, parts: seq<Part>, d: Descriptors)
    requires AllIterable(parts)
    ensures Walk(w, |w|, 0) == Ok((Contents(parts, d, |parts|), |w|))
  {
  }

  // ---- Bodies ----

  /** A reader of the LOB requests finds every field, each in its place. */
  lemma LobRequestsRoundTrip(locatorId: nat, offset: nat, length: nat, position: int, buf: seq<byte>, lastData: bool)
    requires locatorId < Pow256(8) && offset < Pow256(8) && length < Pow256(4)
    requires FitsSigned(position, 8) && |buf| < Pow256(4)
    ensures var b := Body(ReadLobRequest(locatorId, offset, length), None).value;
            && |b| == 24
            && LeValue(b[0..8]) == locatorId && LeValue(b[8..16]) == offset && LeValue(b[16..20]) == length
            && LeValue(b[20..24]) == 0
    ensures var b := Body(WriteLobRequest(locatorId, position, buf, lastData), None).value;
            && |b| == 21 + |buf|
            && LeValue(b[0..8]) == locatorId && b[8] == (if lastData then 6 else 2)
            && SignedValue(b[9..17]) == position && LeValue(b[17..21]) == |buf| && b[21..] == buf
  {
    hide Digits, LeValue, SignedValue, Pow256;
    UnsignedRoundTrip(locatorId, 8);
    UnsignedRoundTrip(offset, 8);
    UnsignedRoundTrip(length, 4);
    UnsignedRoundTrip(|buf|, 4);
    Pow256Positive(4);
    UnsignedRoundTrip(0, 4);
    SignedRoundTrip(position, 8);
    var a := Body(ReadLobRequest(locatorId, offset, length), None).value;
    assert a[0..8] == Digits(locatorId, 8) && a[8..16] == Digits(offset, 8) && a[16..20] == Digits(length, 4);
    assert a[20..24] == Digits(0, 4);
    var b := Body(WriteLobRequest(locatorId, position, buf, lastData), None).value;
    assert b[0..8] == Digits(locatorId, 8) && b[9..17] == Digits(position, 8) && b[17..21] == Digits(|buf|, 4);
  }

  lemma StringIsRead(s: Text, rest: seq<byte>)
    requires |Cesu8(s)| < 0x8000_0000
    ensures V.ReadString(V.EmitLengthAndBytes(Cesu8(s)) + rest) == Ok((V.Chars(s), rest))
  {
    hide Encode, V.EmitLengthAndBytes, V.ReadBytes, StringFromCesu8;
    V.BytesAreRead(Cesu8(s), rest);
    StringFromCesu8IsDecoding(s);
  }

  /** Reads `n` pairs of strings. */
  function ReadEntries(n: nat, input: seq<byte>): Result<(seq<(Text, Text)>, seq<byte>)> {
    if n == 0 then Ok(([], input))
    else
      var key := V.ReadString(input);
      if key.Err? then Err(key.error)
      else
        var value := V.ReadString(key.value.1);
        if value.Err? then Err(value.error)
        else
          var others := ReadEntries(n - 1, value.value.1);
          if others.Err? then others
          else Ok(([(key.value.0.s, value.value.0.s)] + others.value.0, others.value.1))
  }

  predicate EntriesHaveLength(entries: seq<(Text, Text)>) {
    forall i :: 0 <= i < |entries| ==> |Cesu8(entries[i].0)| < 0x8000_0000 && |Cesu8(entries[i].1)| < 0x8000_0000
  }

  lemma {:induction false} EntriesAreRead(entries: seq<(Text, Text)>, rest: seq<byte>)
    requires EntriesHaveLength(entries)
    ensures ReadEntries(|entries|, InfoBytes(entries) + rest) == Ok((entries, rest))
  {
    hide Encode, V.EmitLengthAndBytes, V.ReadString;
    if entries == [] {
      assert InfoBytes(entries) + rest == rest;
    } else {
      var key, value := V.EmitLengthAndBytes(Cesu8(entries[0].0)), V.EmitLengthAndBytes(Cesu8(entries[0].1));
      var others := InfoBytes(entries[1..]);
      assert InfoBytes(entries) + rest == key + (value + (others + rest));
      StringIsRead(entries[0].0, value + (others + rest));
      StringIsRead(entries[0].1, others + rest);
      EntriesAreRead(entries[1..], rest);
      assert entries == [(entries[0].0, entries[0].1)] + entries[1..];
    }
  }

  /** Reads `n` rows of `width` values. */
  function ReadRows(n: nat, width: nat, input: seq<byte>): Result<(seq<seq<V.Found>>, seq<byte>)> {
    if n == 0 then Ok(([], input))
    else
      var first := V.ReadRow(width, input);
      if first.Err? then Err(first.error)
      else
        var others := ReadRows(n - 1, width, first.value.1);
        if others.Err? then others else Ok(([first.value.0] + others.value.0, others.value.1))
  }

  /** The rows have a value for each descriptor, all of which can be read. */
  ghost predicate RowsReadable(rows: seq<seq<V.HdbValue>>, types: seq<V.TypeId>) {
    forall i :: 0 <= i < |rows| ==> |rows[i]| == |types| && V.RowReadable(rows[i], types)
  }

  ghost predicate RowsArrive(rows: seq<seq<V.HdbValue>>, types: seq<V.TypeId>, found: seq<seq<V.Found>>) {
    |found| == |rows| && forall i :: 0 <= i < |rows| ==> V.RowArrives(rows[i], types, found[i])
  }

  lemma {:induction false} RowsAreRead(rows: seq<seq<V.HdbValue>>, types: seq<V.TypeId>, rest: seq<byte>)
    requires RowsBytes(rows, types).Ok? && RowsReadable(rows, types)
    ensures var r := ReadRows(|rows|, |types|, RowsBytes(rows, types).value + rest);
            r.Ok? && r.value.1 == rest && RowsArrive(rows, types, r.value.0)
  {
    hide V.RowBytes, V.ReadRow, V.RowReadable, V.RowArrives;
    if rows == [] {
      assert [] + rest == rest;
    } else {
      var first, others := V.RowBytes(rows[0], types).value, RowsBytes(rows[1..], types).value;
      assert first + others + rest == first + (others + rest);
      V.RowIsRead(rows[0], types, others + rest);
      assert forall i :: 0 <= i < |rows[1..]| ==> rows[1..][i] == rows[i + 1];
      RowsAreRead(rows[1..], types, rest);
      assert forall i :: 0 <= i < |rows| ==> rows[i] == if i == 0 then rows[0] else rows[1..][i - 1];
    }
  }

  /** Parts with all numbers in the range of their Rust types, and lengths that their fields can hold. */
  ghost predicate Readable(p: Part, d: Descriptors) {
    match p
    case Auth(fields) => |fields| <= 65_535
    case OptionPart(_, options, order) =>
      O.Enumerates(order, options) && forall k :: k in options ==> O.Representable(options[k])
    case ClientInfo(entries) => EntriesHaveLength(entries)
    case Command(_) => true
    case FetchSize(n) => n < Pow256(4)
    case ResultSetId(id) => id < Pow256(8)
    case StatementId(id) => id < Pow256(8)
    case ReadLobRequest(locatorId, offset, length) =>
      locatorId < Pow256(8) && offset < Pow256(8) && length < Pow256(4)
    case WriteLobRequest(locatorId, position, buf, _) =>
      locatorId < Pow256(8) && FitsSigned(position, 8) && |buf| < Pow256(4)
    case Parameters(rows) => d.Some? ==> RowsReadable(rows, d.value)
    case ReplyPart(_) => true
  }

  /** Kind, number of arguments and body carry what the part stands for, in terms of readers of the body. */
  ghost predicate Carries(p: Part, d: Descriptors, found: Found) {
    var (kind, count, body) := (found.kind, found.count, found.body);
    match p
    case Auth(fields) =>
      && kind == 33 && count == 1
      && |body| >= 2 && A.ParseFields(LeValue(body[..2]), body[2..]) == Ok((fields, []))
    case OptionPart(k, options, _) =>
      && kind == k && count == (if k == 29 then 1 else |options|)
      && O.ParseEntries(|options|, body, map[]) == Ok((options, []))
    case ClientInfo(entries) =>
      && kind == 57 && count == 2 * |entries|
      && ReadEntries(|entries|, body) == Ok((entries, []))
    case Command(s) => kind == 3 && count == 1 && Decode(CESU8, body) == Some(s)
    case FetchSize(n) => kind == 45 && count == 1 && |body| == 4 && LeValue(body) == n
    case ResultSetId(id) => kind == 13 && count == 1 && |body| == 8 && LeValue(body) == id
    case StatementId(id) => kind == 10 && count == 1 && |body| == 8 && LeValue(body) == id
    case ReadLobRequest(locatorId, offset, length) =>
      && kind == 17 && count == 1 && |body| == 24
      && LeValue(body[0..8]) == locatorId && LeValue(body[8..16]) == offset && LeValue(body[16..20]) == length
      && LeValue(body[20..24]) == 0
    case WriteLobRequest(locatorId, position, buf, lastData) =>
      && kind == 28 && count == 1 && |body| == 21 + |buf|
      && LeValue(body[0..8]) == locatorId && body[8] == (if lastData then 6 else 2)
      && SignedValue(body[9..17]) == position && LeValue(body[17..21]) == |buf| && body[21..] == buf
    case Parameters(rows) =>
      && kind == 32 && count == |rows| && d.Some?
      && var read := ReadRows(|rows|, |d.value|, body);
         read.Ok? && read.value.1 == [] && RowsArrive(rows, d.value, read.value.0)
    case ReplyPart(_) => false
  }

  lemma NumberIsRead(n: nat, k: nat)
    requires n < Pow256(k)
    ensures |Digits(n, k)| == k && LeValue(Digits(n, k)) == n
  {
    hide Digits, LeValue, Pow256;
    UnsignedRoundTrip(n, k);
  }

  lemma BodyIsRead(p: Part, d: Descriptors)
    requires Iterable(p) && Readable(p, d) && Body(p, d).Ok? && Count(p).Ok?
    ensures Carries(p, d, Found(Kind(p), Count(p).value, Body(p, d).value))
  {
    hide Digits, LeValue, SignedValue, FitsSigned, Pow256, Encode, Decode, A.FieldsBytes, A.ParseFields,
      O.EmitEntries, O.ParseEntries, O.Representable, O.Enumerates, InfoBytes, ReadEntries, RowsBytes, ReadRows, RowsArrive, RowsReadable, EntriesHaveLength;
    match p
    case Auth(fields) =>
      A.RoundTrip(fields, []);
      assert A.AuthBytes(fields).value + [] == A.AuthBytes(fields).value;
    case OptionPart(_, options, order) =>
      O.RoundTrip(options, order, []);
      assert O.EmitEntries(options, order) + [] == O.EmitEntries(options, order);
    case ClientInfo(entries) =>
      EntriesAreRead(entries, []);
      assert InfoBytes(entries) + [] == InfoBytes(entries);
    case Command(s) => DecodeEncode(CESU8, s);
    case FetchSize(n) => NumberIsRead(n, 4);
    case ResultSetId(id) => NumberIsRead(id, 8);
    case StatementId(id) => NumberIsRead(id, 8);
    case ReadLobRequest(locatorId, offset, length) =>
      Pow256Positive(4);
      Pow256Positive(8);
      ZeroFits();
      LobRequestsRoundTrip(locatorId, offset, length, 0, [], false);
    case WriteLobRequest(locatorId, position, buf, lastData) =>
      Pow256Positive(4);
      Pow256Positive(8);
      LobRequestsRoundTrip(locatorId, 0, 0, position, buf, lastData);
    case Parameters(rows) =>
      RowsAreRead(rows, d.value, []);
      assert RowsBytes(rows, d.value).value + [] == RowsBytes(rows, d.value).value;
    case ReplyPart(_) =>
  }

  lemma ZeroFits()
    ensures FitsSigned(0, 8)
  {
    Pow256Positive(8);
  }

  // ---- The whole message ----

  ghost predicate AllReadable(parts: seq<Part>, d: Descriptors) {
    forall i :: 0 <= i < |parts| ==> Readable(parts[i], d)
  }

  /** A receiver who walks over the message and reads each body finds every part, in order, and nothing else. */
  ghost predicate Received(w: seq<byte>, parts: seq<Part>, d: Descriptors) {
    var r := Walk(w, 56, |parts|);
    && r.Ok? && r.value.1 == |w|
    && |r.value.0| == |parts|
    && forall i :: 0 <= i < |parts| ==> Carries(parts[i], d, r.value.0[i])
  }

  lemma {:induction false} ContentsAt(parts: seq<Part>, d: Descriptors, i: nat, j: nat)
    requires AllIterable(parts) && i <= j < |parts|
    requires forall k :: i <= k < |parts| ==> Count(parts[k]).Ok? && Body(parts[k], d).Ok?
    ensures |Contents(parts, d, i)| == |parts| - i
    ensures Contents(parts, d, i)[j - i] == Found(Kind(parts[j]), Count(parts[j]).value, Body(parts[j], d).value)
    decreases |parts| - i
  {
    hide Count, Body;
    if i < j {
      ContentsAt(parts, d, i + 1, j);
    } else if i + 1 < |parts| {
      ContentsAt(parts, d, i + 1, i + 1);
    }
  }

  lemma MessageIsReceived(w: seq<byte>, parts: seq<Part>, d: Descriptors)
    requires AllIterable(parts) && Framed(w, parts, d) && |w| < 0x8000_0000 && AllReadable(parts, d)
    ensures Received(w, parts, d)
  {
    hide Walk, Framed, Carries, Readable, Count, Body, Contents;
    WalkFindsParts(w, parts, d);
    if parts == [] {
      NoContents(d);
    } else {
      ContentsAt(parts, d, 0, 0);
    }
    forall i | 0 <= i < |parts| ensures Carries(parts[i], d, Contents(parts, d, 0)[i]) {
      ContentsAt(parts, d, 0, i);
      BodyIsRead(parts[i], d);
    }
  }

  lemma NoContents(d: Descriptors)
    ensures Contents([], d, 0) == []
  {
  }

  /** A request that is sent is received: every part comes back, if all parts are well-sized and readable. */
  method Send(sessionId: int, seqNumber: int, autoCommit: bool, requestType: int, commandOptions: int,
              parts: seq<Part>, d: Descriptors) returns (r: Result<seq<byte>>)
    requires AllIterable(parts)
    requires SizeOfFirst(parts, d, |parts|).Ok? ==> Start(parts, d, |parts|) < 0x8000_0000
    ensures r.Ok? <==> forall i :: 0 <= i < |parts| ==> CanBeSent(parts[i], d)
    ensures r.Ok? && FirstWellSized(parts, d, |parts|) && AllReadable(parts, d) ==> Received(r.value, parts, d)
  {
    hide Received, AllReadable, CanBeSent, WellSized, FirstWellSized, PartInPlace;
    var w, _ := Emit(sessionId, seqNumber, autoCommit, requestType, commandOptions, parts, d);
    if w.Ok? && FirstWellSized(parts, d, |parts|) && AllReadable(parts, d) {
      MessageIsReceived(w.value, parts, d);
    }
    return w;
  }
}
