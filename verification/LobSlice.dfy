/** `read_slice` of CLOB and NCLOB: separating whole characters from the pieces at both ends of a slice. */
module LobSlice {
  import opened Wrappers
  import opened Unicode
  import opened Cesu8Util
  import opened LobServer
  import N = NCLob

  datatype CharLobSlice = CharLobSlice(prefix: Option<seq<byte>>, data: Text, postfix: Option<seq<byte>>)

  function Piece(b: seq<byte>): Option<seq<byte>> {
    if b == [] then None else Some(b)
  }

  /** `cesu8_to_string_and_tail` */
  method Cesu8ToStringAndTail(cesu8: seq<byte>) returns (r: Result<(Text, seq<byte>)>)
    ensures r == StringAndTail(cesu8)
  {
    var tailLen := GetCesu8TailLen(cesu8);
    if tailLen.Err? {
      return Err(tailLen.error);
    }
    if tailLen.value > |cesu8| {
      return Err(Panic);   // split_off out of range
    }
    var cut := |cesu8| - tailLen.value;
    var text := StringFromCesu8(cesu8[..cut]);
    if text.Err? {
      return Err(text.error);
    }
    return Ok((text.value, cesu8[cut..]));
  }

  function StringAndTail(cesu8: seq<byte>): Result<(Text, seq<byte>)> {
    match TailLen(cesu8)
    case Err(e) => Err(e)
    case Ok(n) =>
      if n > |cesu8| then Err(Panic)
      else
        match StringFromCesu8(cesu8[..|cesu8| - n])
        case Err(e) => Err(e)
        case Ok(s) => Ok((s, cesu8[|cesu8| - n..]))
  }

  /** On a prefix of well-formed CESU-8 it finds the whole characters, unless the prefix is a lone lead. */
  lemma StringAndTailOfPrefix(s: Text, n: nat)
    requires n <= |Cesu8(s)|
    ensures var q, k := Cesu8(s)[..n], Fit(CESU8, s, n);
            && |Cesu8(s[..k])| <= n <= |Cesu8(s[..k])| + 5
            && q == Cesu8(s[..k]) + q[|Cesu8(s[..k])|..]
            && StringAndTail(q) == if LoneLead(q) then Err(IoError) else Ok((s[..k], q[|Cesu8(s[..k])|..]))
  {
    hide Encode, Fit, TailLen, StringFromCesu8, LoneLead;
    var q, k := Cesu8(s)[..n], Fit(CESU8, s, n);
    TailLenIsBoundaryDistance(s, n);
    PrefixShape(CESU8, s, n);
    assert q[..|Cesu8(s[..k])|] == Cesu8(s[..k]);
    StringFromCesu8IsDecoding(s[..k]);
  }

  // ---- CLOB: cut at any byte ----

  /** Where the first character of a slice starts, as the forward scan sees it. */
  function SplitPoint(cesu8: seq<byte>, start: nat): nat
    decreases |cesu8| - start
  {
    if start >= |cesu8| then 0
    else
      match CharType(cesu8, start)
      case SecondHalfOfSurrogate => start + 3
      case NotAStart => SplitPoint(cesu8, start + 1)
      case _ => start
  }

  function SplitBytes(cesu8: seq<byte>): Result<CharLobSlice> {
    var split := SplitPoint(cesu8, 0);
    if split > |cesu8| then Err(Panic)
    else
      match StringAndTail(cesu8[split..])
      case Err(_) => Err(Panic)
      case Ok((data, postfix)) => Ok(CharLobSlice(Piece(cesu8[..split]), data, Piece(postfix)))
  }

  method SplitOffOrphanedBytes(cesu8: seq<byte>) returns (r: Result<CharLobSlice>)
    ensures r == SplitBytes(cesu8)
  {
    var split, start := 0, 0;
    while start < |cesu8|
      invariant start <= |cesu8| && split == 0
      invariant SplitPoint(cesu8, 0) == SplitPoint(cesu8, start)
    {
      match CharType(cesu8, start)
      case SecondHalfOfSurrogate =>
        split := start + 3;
        break;
      case NotAStart =>
        start := start + 1;
      case _ =>
        split := start;
        break;
    }
    if split > |cesu8| {
      return Err(Panic);   // slice index out of range
    }
    var prefix := if split == 0 then None else Some(cesu8[0..split]);
    var parts := Cesu8ToStringAndTail(cesu8[split..]);
    if parts.Err? {
      return Err(Panic);   // unwrap
    }
    var (data, postfix) := parts.value;
    return Ok(CharLobSlice(prefix, data, if postfix == [] then None else Some(postfix)));
  }

  lemma {:induction false} ScanReaches(b: seq<byte>, start: nat, at: nat)
    requires start <= at < |b|
    requires forall i :: start <= i < at ==> CharType(b, i) == NotAStart
    requires CharType(b, at) != NotAStart
    ensures SplitPoint(b, start) == if CharType(b, at).SecondHalfOfSurrogate? then at + 3 else at
    decreases at - start
  {
    if start < at {
      ScanReaches(b, start + 1, at);
    }
  }

  /** Up to two continuation bytes in front of the start of a character are skipped. */
  lemma SkipsContinuations(p: seq<byte>, q: seq<byte>)
    requires |p| <= 2 && (forall i :: 0 <= i < |p| ==> IsContinuation(p[i]))
    requires q != [] && !CharType(q, 0).NotAStart? && !CharType(q, 0).SecondHalfOfSurrogate?
    ensures SplitPoint(p + q, 0) == |p|
  {
    var b := p + q;
    assert b[|p|] == q[0] && (|q| > 1 ==> b[|p| + 1] == q[1]);
    ScanReaches(b, 0, |p|);
  }

  /** Continuation bytes and a second half are skipped. */
  lemma SkipsSecondHalf(p: seq<byte>, q: seq<byte>)
    requires |p| >= 3 && p[|p| - 3] == 0xED && 0xB0 <= p[|p| - 2] <= 0xBF
    requires forall i :: 0 <= i < |p| - 3 ==> IsContinuation(p[i])
    ensures SplitPoint(p + q, 0) == |p|
  {
    ScanReaches(p + q, 0, |p| - 3);
  }

  /** The front of a character is taken for a start. */
  lemma FrontIsStart(c: Scalar, q: seq<byte>)
    requires q != [] && (q <= EncodeChar(CESU8, c) || EncodeChar(CESU8, c) <= q)
    ensures !CharType(q, 0).NotAStart? && !CharType(q, 0).SecondHalfOfSurrogate?
  {
    hide EncodeChar;
    CharShape(c);
  }

  /** The rest of a character, followed by something, is skipped exactly. */
  lemma SkipsRestOfChar(c: Scalar, m: nat, q: seq<byte>, first: Scalar)
    requires 0 < m <= |EncodeChar(CESU8, c)|
    requires q != [] && (q <= EncodeChar(CESU8, first) || EncodeChar(CESU8, first) <= q)
    ensures SplitPoint(EncodeChar(CESU8, c)[m..] + q, 0) == |EncodeChar(CESU8, c)| - m
  {
    hide EncodeChar, CharType, SplitPoint;
    var p := EncodeChar(CESU8, c)[m..];
    CharShape(c);
    FrontIsStart(first, q);
    if |p| >= 3 {
      SkipsSecondHalf(p, q);
    } else {
      SkipsContinuations(p, q);
    }
  }

  lemma NothingInOneByte(x: byte)
    requires IsContinuation(x) || x == 0xED
    ensures CharType([x], 0) == TooShort && StringAndTail([x]).Err?
  {
    var y := [x];
    assert TailScan(y, 0) == Err(IoError);
    assert TailScan(y, 1) == TailScan(y, 0);
  }

  /** Continuation bytes up to the last byte, which starts nothing: the scan takes that one for a start, and fails on it. */
  lemma NoStartAtAll(b: seq<byte>)
    requires b != [] && (forall i :: 0 <= i < |b| - 1 ==> IsContinuation(b[i]))
    requires IsContinuation(b[|b| - 1]) || b[|b| - 1] == 0xED
    ensures SplitBytes(b) == Err(Panic)
  {
    hide StringAndTail;
    ScanReaches(b, 0, |b| - 1);
    NothingInOneByte(b[|b| - 1]);
    assert b[|b| - 1..] == [b[|b| - 1]];
  }

  /** Continuation bytes, and two bytes of a second half: the scan skips three. */
  lemma SecondHalfCutOff(b: seq<byte>)
    requires |b| >= 2 && b[|b| - 2] == 0xED && 0xB0 <= b[|b| - 1] <= 0xBF
    requires forall i :: 0 <= i < |b| - 2 ==> IsContinuation(b[i])
    ensures SplitBytes(b) == Err(Panic)
  {
    hide StringAndTail;
    ScanReaches(b, 0, |b| - 2);
  }

  /** Continuation bytes, and a second half: all of it is split off. */
  lemma EndsWithSecondHalf(b: seq<byte>)
    requires |b| >= 3 && b[|b| - 3] == 0xED && 0xB0 <= b[|b| - 2] <= 0xBF
    requires forall i :: 0 <= i < |b| - 3 ==> IsContinuation(b[i])
    ensures SplitBytes(b) == Ok(CharLobSlice(Some(b), [], None))
  {
    ScanReaches(b, 0, |b| - 3);
    NothingIsText();
    hide StringAndTail;
    assert b[|b|..] == [] && b[..|b|] == b;
  }

  lemma NothingIsText()
    ensures StringAndTail([]) == Ok(([], []))
  {
  }

  /** The rest of a character alone splits only if it contains the second half of a surrogate pair. */
  lemma RestOfCharAlone(c: Scalar, m: nat)
    requires 0 < m < |EncodeChar(CESU8, c)|
    ensures var p := EncodeChar(CESU8, c)[m..];
            SplitBytes(p) == if |p| >= 3 then Ok(CharLobSlice(Some(p), [], None)) else Err(Panic)
  {
    hide EncodeChar, SplitBytes;
    var w := EncodeChar(CESU8, c);
    var p := w[m..];
    CharShape(c);
    if |p| >= 3 {
      EndsWithSecondHalf(p);
    } else {
      NoStartAtAll(p);
    }
  }

  /** A slice from the inside of one character never splits. */
  lemma InsideOfChar(c: Scalar, m: nat, n: nat)
    requires 0 < m < n < |EncodeChar(CESU8, c)|
    ensures SplitBytes(EncodeChar(CESU8, c)[m..n]) == Err(Panic)
  {
    hide EncodeChar, SplitBytes;
    var p := EncodeChar(CESU8, c)[m..n];
    CharShape(c);
    if m <= 3 && n == 5 {
      SecondHalfCutOff(p);
    } else {
      NoStartAtAll(p);
    }
  }

  /**
   * A slice that begins with the rest of a character and goes on into the following text: it splits exactly
   * if what follows is not a lone lead, and then into the rest, the whole characters and the started one.
   */
  lemma SplitsAtCharacters(c: Scalar, m: nat, s: Text, n: nat)
    requires 0 < m <= |EncodeChar(CESU8, c)| && 0 < n <= |Cesu8(s)|
    ensures var p, q, k := EncodeChar(CESU8, c)[m..], Cesu8(s)[..n], Fit(CESU8, s, n);
            && |Cesu8(s[..k])| <= n
            && SplitBytes(p + q) ==
               if LoneLead(q) then Err(Panic) else Ok(CharLobSlice(Piece(p), s[..k], Piece(q[|Cesu8(s[..k])|..])))
  {
    hide EncodeChar, StringAndTail, LoneLead, Fit;
    var p, q := EncodeChar(CESU8, c)[m..], Cesu8(s)[..n];
    var x := EncodeChar(CESU8, s[0]);
    assert Cesu8(s) == x + Cesu8(s[1..]);
    assert q <= x || x <= q;
    SkipsRestOfChar(c, m, q, s[0]);
    assert (p + q)[|p|..] == q && (p + q)[..|p|] == p;
    StringAndTailOfPrefix(s, n);
  }

  /** What `split_off_orphaned_bytes` promises: nothing is lost, and all whole characters are in the data. */
  ghost predicate SplitsWell(v: seq<byte>, r: CharLobSlice, whole: Text) {
    var prefix := if r.prefix.Some? then r.prefix.value else [];
    var postfix := if r.postfix.Some? then r.postfix.value else [];
    && r.data == whole
    && prefix + Cesu8(r.data) + postfix == v
    && |prefix| <= 5 && |postfix| <= 5
    && r.prefix != Some([]) && r.postfix != Some([])
  }

  /** The first character that starts at or behind byte `i`. */
  ghost function FirstFrom(s: Text, i: nat): (k: nat)
    ensures k <= |s|
  {
    var k := Fit(CESU8, s, i);
    if |Cesu8(s[..k])| == i || k == |s| then k else k + 1
  }

  lemma BeforeFirstFrom(s: Text, i: nat) returns (c: Scalar, m: nat)
    requires i <= |Cesu8(s)|
    ensures 0 < m <= |EncodeChar(CESU8, c)|
    ensures var k := FirstFrom(s, i);
            Cesu8(s)[i..] == EncodeChar(CESU8, c)[m..] + Cesu8(s[k..])
  {
    hide EncodeChar, Encode, Fit;
    var j := Fit(CESU8, s, i);
    PrefixShape(CESU8, s, i);
    EncodeSplit(CESU8, s, j);
    if |Cesu8(s[..j])| == i {
      c, m := 0, |EncodeChar(CESU8, 0)|;
      assert Cesu8(s)[i..] == Cesu8(s[j..]);
    } else {
      c, m := s[j], i - |Cesu8(s[..j])|;
      EncodeSplit(CESU8, s, j + 1);
      EncodePush(CESU8, s, j);
    }
  }

  /**
   * Which slices of well-formed CESU-8 split, and into what; `b` is the first character boundary at or behind
   * the start. If the slice goes on behind `b`, it must not end in a lone lead there; if it ends at `b`, it must
   * consist of three bytes at least; and if it ends before `b`, it never splits.
   */
  lemma SplitsExactlyWhen(s: Text, i: nat, j: nat)
    requires i < j <= |Cesu8(s)|
    ensures var k := FirstFrom(s, i);
            var b, v := |Cesu8(s[..k])|, Cesu8(s)[i..j];
            && (SplitBytes(v).Ok? <==> (b < j && !LoneLead(Cesu8(s)[b..j])) || (b == j && j - i >= 3))
            && (SplitBytes(v).Ok? ==> b <= j && SplitsWell(v, SplitBytes(v).value, s[k..][..Fit(CESU8, s[k..], j - b)]))
            && i <= b <= i + 5
  {
    hide EncodeChar, Encode, Fit, SplitBytes, StringAndTail, LoneLead, SplitsWell;
    var c, m := BeforeFirstFrom(s, i);
    var k := FirstFrom(s, i);
    var p, rest := EncodeChar(CESU8, c)[m..], s[k..];
    EncodeSplit(CESU8, s, k);
    var b := |Cesu8(s[..k])|;
    assert b == i + |p|;
    if b < j {
      assert Cesu8(s)[i..j] == Cesu8(s)[i..][..j - i] == p + Cesu8(rest)[..j - b];
      assert Cesu8(s)[b..j] == Cesu8(rest)[..j - b];
      SplitsIntoText(c, m, rest, j - b);
    } else if b == j {
      assert Cesu8(s)[i..j] == Cesu8(s)[i..][..j - i] == p;
      RestOfCharAlone(c, m);
      SplitsIntoNothing(p, rest);
    } else {
      assert Cesu8(s)[i..j] == Cesu8(s)[i..][..j - i] == p[..j - i] == EncodeChar(CESU8, c)[m..m + (j - i)];
      InsideOfChar(c, m, m + (j - i));
    }
  }

  lemma SplitsIntoText(c: Scalar, m: nat, s: Text, n: nat)
    requires 0 < m <= |EncodeChar(CESU8, c)| && 0 < n <= |Cesu8(s)|
    ensures var p, q := EncodeChar(CESU8, c)[m..], Cesu8(s)[..n];
            var r := SplitBytes(p + q);
            && (r.Ok? <==> !LoneLead(q))
            && (r.Ok? ==> SplitsWell(p + q, r.value, s[..Fit(CESU8, s, n)]))
  {
    hide EncodeChar, Encode, Fit, SplitBytes, StringAndTail, LoneLead;
    var p, q := EncodeChar(CESU8, c)[m..], Cesu8(s)[..n];
    SplitsAtCharacters(c, m, s, n);
    StringAndTailOfPrefix(s, n);
    var t := Cesu8(s[..Fit(CESU8, s, n)]);
    assert p + t + q[|t|..] == p + q;
  }

  lemma SplitsIntoNothing(p: seq<byte>, rest: Text)
    requires 0 < |p| <= 5
    ensures Fit(CESU8, rest, 0) == 0
    ensures SplitsWell(p, CharLobSlice(Some(p), [], None), rest[..0])
  {
    assert p + Cesu8([]) + [] == p;
  }

  /** Slices of seven bytes or more always split. */
  lemma LongSlicesSplit(s: Text, i: nat, j: nat)
    requires i + 7 <= j <= |Cesu8(s)|
    ensures SplitBytes(Cesu8(s)[i..j]).Ok?
  {
    hide Encode, Fit, SplitBytes, SplitsWell;
    SplitsExactlyWhen(s, i, j);
  }

  lemma EmptySplits()
    ensures SplitBytes([]) == Ok(CharLobSlice(None, [], None))
  {
    NothingIsText();
  }

  /** `read_slice` of a CLOB: offset and length count bytes, and the reply is split. */
  method ReadClobSlice(server: Server<byte>, offset: nat, length: nat, ghost s: Text) returns (r: Result<CharLobSlice>)
    requires server.content == Cesu8(s) && offset <= |server.content|
    ensures var v := FetchALobChunk(server, offset, length).0;
            var k, j := FirstFrom(s, offset), offset + |v|;
            var b := |Cesu8(s[..k])|;
            && (r.Ok? <==> v == [] || (b < j && !LoneLead(server.content[b..j])) || (b == j && |v| >= 3))
            && (r.Ok? && v == [] ==> r.value == CharLobSlice(None, [], None))
            && (r.Ok? && v != [] ==> b <= j && SplitsWell(v, r.value, s[k..][..Fit(CESU8, s[k..], j - b)]))
  {
    hide Encode, EncodeChar, Fit, SplitBytes, SplitsWell, LoneLead, FetchALobChunk, FirstFrom;
    var v := FetchALobChunk(server, offset, length).0;
    if v != [] {
      SplitsExactlyWhen(s, offset, offset + |v|);
    } else {
      EmptySplits();
    }
    r := SplitOffOrphanedBytes(v);
  }

  // ---- NCLOB: cut between sequences ----

  function SplitSurrogates(cesu8: seq<byte>): Result<CharLobSlice> {
    if cesu8 == [] then Err(Panic)
    else
      var t := CharType(cesu8, 0);
      if t.NotAStart? || t.TooShort? then Err(ImplError)
      else if t.SecondHalfOfSurrogate? && |cesu8| < 3 then Err(Panic)
      else
        var n := if t.SecondHalfOfSurrogate? then 3 else 0;
        match StringAndTail(cesu8[n..])
        case Err(_) => Err(Panic)
        case Ok((data, tail)) =>
          if |tail| == 0 || |tail| == 3 then Ok(CharLobSlice(Piece(cesu8[..n]), data, Piece(tail)))
          else Err(ImplError)
  }

  /** The text from the first whole character on, cut between sequences. */
  lemma UnitCutText(s: Text, j: nat)
    requires j <= |Utf16(s)|
    ensures var q := EncodeUnits(Utf16(s)[..j]);
            var k := Fit(CESU8, s, |q|);
            && |Cesu8(s[..k])| <= |q|
            && StringAndTail(q) == Ok((s[..k], q[|Cesu8(s[..k])|..]))
            && q == Cesu8(s[..k]) + q[|Cesu8(s[..k])|..]
            && (|q[|Cesu8(s[..k])|..]| == 0 || |q[|Cesu8(s[..k])|..]| == 3)
  {
    hide EncodeChar, Encode, EncodeUnits, Utf16, Fit, StringAndTail, LoneLead;
    var q := EncodeUnits(Utf16(s)[..j]);
    N.UnitCutTail(s, j);
    assert q == Cesu8(s)[..|q|];
    StringAndTailOfPrefix(s, |q|);
    FitIsMaximal(CESU8, s, |q|);
  }

  /** The classification of the first byte of unit-aligned content. */
  lemma FirstUnit(us: seq<CodeUnit>)
    requires us != []
    ensures var v := EncodeUnits(us);
            && v != []
            && var t := CharType(v, 0);
               && (t.SecondHalfOfSurrogate? <==> IsLow(us[0]))
               && !t.NotAStart? && !t.TooShort?
  {
    hide EncodeUnit;
    var h, more := EncodeUnit(us[0]), EncodeUnits(us[1..]);
    UnitShape(us[0]);
    assert EncodeUnits(us) == h + more;
    assert (h + more)[0] == h[0] && (|h| >= 2 ==> (h + more)[1] == h[1]);
  }

  lemma SplitAfterHalf(l: seq<byte>, q: seq<byte>)
    requires |l| == 3 && CharType(l + q, 0).SecondHalfOfSurrogate? && StringAndTail(q).Ok?
    requires |StringAndTail(q).value.1| == 0 || |StringAndTail(q).value.1| == 3
    ensures var (data, tail) := StringAndTail(q).value;
            SplitSurrogates(l + q) == Ok(CharLobSlice(Some(l), data, Piece(tail)))
  {
    hide StringAndTail, CharType;
    assert (l + q)[..3] == l && (l + q)[3..] == q;
  }

  /** A slice that starts with a whole character. */
  lemma AlignedSliceSplits(s: Text, n: nat)
    requires 0 < n <= |Utf16(s)|
    ensures var v := EncodeUnits(Utf16(s)[..n]);
            var r := SplitSurrogates(v);
            && r.Ok? && SplitsWell(v, r.value, s[..Fit(CESU8, s, |v|)])
            && r.value.prefix == None
            && (r.value.postfix.Some? ==> |r.value.postfix.value| == 3)
  {
    hide EncodeChar, Encode, EncodeUnits, Fit, StringAndTail, CharType;
    var us := Utf16(s)[..n];
    var v := EncodeUnits(us);
    FirstUnit(us);
    assert !IsLow(us[0]) by {
      assert us[0] == Units(s[0])[0];
    }
    assert v[0..] == v && v[..0] == [];
    UnitCutText(s, n);
    var t := Cesu8(s[..Fit(CESU8, s, |v|)]);
    assert [] + t + v[|t|..] == v;
    assert v[|t|..] == [] ==> [] + t + [] == v;
  }

  /** A slice that starts with the second half of a surrogate pair. */
  lemma OrphanedSliceSplits(c: Scalar, s: Text, n: nat)
    requires c >= 0x1_0000 && n <= |Utf16(s)|
    ensures var v := EncodeUnits([Low(c)] + Utf16(s)[..n]);
            && |v| >= 3
            && var r := SplitSurrogates(v);
               && r.Ok? && SplitsWell(v, r.value, s[..Fit(CESU8, s, |v| - 3)])
               && r.value.prefix == Some(EncodeUnit(Low(c)))
               && (r.value.postfix.Some? ==> |r.value.postfix.value| == 3)
  {
    hide EncodeChar, Encode, EncodeUnits, EncodeUnit, Utf16, Fit, StringAndTail, CharType, SplitSurrogates;
    var us := Utf16(s)[..n];
    var l, q := EncodeUnit(Low(c)), EncodeUnits(us);
    EncodeUnitsConcat([Low(c)], us);
    EncodeOneUnit(Low(c));
    UnitShape(Low(c));
    FirstUnit([Low(c)] + us);
    UnitCutText(s, n);
    SplitAfterHalf(l, q);
    var t := Cesu8(s[..Fit(CESU8, s, |q|)]);
    assert l + t + q[|t|..] == l + q;
    assert q[|t|..] == [] ==> l + t + [] == l + q;
  }

  lemma EncodeOneUnit(u: CodeUnit)
    ensures EncodeUnits([u]) == EncodeUnit(u)
  {
    assert [u][1..] == [];
  }

  /**
   * The units of `s` from `i` on, encoded in `v`, are split into an orphaned half, the whole characters and another
   * half; `k` is the first character that starts at unit `i` or behind it.
   */
  ghost predicate UnitsSplitWell(s: Text, i: nat, v: seq<byte>, r: CharLobSlice, k: nat) {
    && k <= |s| && i <= |Utf16(s[..k])| <= i + 1
    && (r.prefix.Some? <==> |Utf16(s[..k])| == i + 1)
    && (r.prefix.Some? ==> |r.prefix.value| == 3 <= |v|)
    && (r.postfix.Some? ==> |r.postfix.value| == 3)
    && SplitsWell(v, r, s[k..][..Fit(CESU8, s[k..], |v| - if r.prefix.Some? then 3 else 0)])
  }

  /** Every non-empty slice cut between sequences splits like this. */
  lemma {:induction false} UnitSlicesSplitWell(s: Text, i: nat, j: nat) returns (k: nat)
    requires i < j <= |Utf16(s)|
    ensures var v := EncodeUnits(Utf16(s)[i..j]);
            SplitSurrogates(v).Ok? && UnitsSplitWell(s, i, v, SplitSurrogates(v).value, k)
  {
    hide EncodeChar, Encode, EncodeUnit, EncodeUnits, Fit, SplitSurrogates, SplitsWell, Utf16;
    Utf16First(s);
    var us, h, rest := Utf16(s), Units(s[0]), s[1..];
    if i == 0 {
      k := 0;
      N.NothingBefore(s);
      assert us[0..j] == us[..j];
      AlignedSliceSplits(s, j);
    } else if i < |h| {
      k := 1;
      N.NothingBefore(rest);
      Utf16Push(s, 0);
      assert us[1..j] == [Low(s[0])] + Utf16(rest)[..j - 2];
      OrphanedSliceSplits(s[0], rest, j - 2);
      UnitShape(Low(s[0]));
    } else {
      k := UnitSlicesSplitWell(rest, i - |h|, j - |h|);
      Utf16Push(s, k);
      assert us[i..j] == Utf16(rest)[i - |h|..j - |h|];
      k := k + 1;
    }
  }

  /** `split_off_orphaned_surrogates`; the ghost parameters say which units of a text the bytes are, if they are. */
  method SplitOffOrphanedSurrogates(cesu8: seq<byte>, ghost s: Text, ghost i: nat, ghost j: nat)
    returns (r: Result<CharLobSlice>, ghost k: nat)
    ensures r == SplitSurrogates(cesu8)
    ensures i < j <= |Utf16(s)| && cesu8 == EncodeUnits(Utf16(s)[i..j]) ==> r.Ok? && UnitsSplitWell(s, i, cesu8, r.value, k)
  {
    hide Encode, EncodeChar, EncodeUnit, EncodeUnits, Utf16, Fit, StringAndTail, UnitsSplitWell;
    k := 0;
    if i < j <= |Utf16(s)| {
      k := UnitSlicesSplitWell(s, i, j);
    }
    if cesu8 == [] {
      return Err(Panic), k;   // len - 1 underflows
    }
    var prefix: Option<seq<byte>>;
    var rest: seq<byte>;
    match CharType(cesu8, 0) {
      case SecondHalfOfSurrogate =>
        if |cesu8| < 3 {
          return Err(Panic), k;   // index out of range
        }
        assert cesu8[..3] == [cesu8[0], cesu8[1], cesu8[2]];
        prefix, rest := Some([cesu8[0], cesu8[1], cesu8[2]]), cesu8[3..];
      case NotAStart =>
        return Err(ImplError), k;
      case TooShort =>
        return Err(ImplError), k;
      case _ =>
        assert cesu8[0..] == cesu8;
        prefix, rest := None, cesu8;
    }
    var parts := Cesu8ToStringAndTail(rest);
    if parts.Err? {
      return Err(Panic), k;   // unwrap
    }
    var (data, tail) := parts.value;
    if |tail| == 0 {
      return Ok(CharLobSlice(prefix, data, None)), k;
    } else if |tail| == 3 {
      return Ok(CharLobSlice(prefix, data, Some(tail))), k;
    } else {
      return Err(ImplError), k;
    }
  }

  /** `read_slice` of an NCLOB: offset and length count code units; only an empty reply makes it panic. */
  method ReadNclobSlice(server: Server<CodeUnit>, offset: nat, length: nat, ghost s: Text)
    returns (r: Result<CharLobSlice>, ghost k: nat)
    requires server.content == Utf16(s) && offset <= |server.content|
    ensures r.Err? <==> length == 0 || offset == |server.content|
    ensures r.Ok? ==>
              UnitsSplitWell(s, offset, EncodeUnits(FetchALobChunk(server, offset, length).0), r.value, k)
  {
    hide Encode, EncodeChar, EncodeUnit, Utf16, UnitsSplitWell, FetchALobChunk;
    var units := FetchALobChunk(server, offset, length).0;
    r, k := SplitOffOrphanedSurrogates(EncodeUnits(units), s, offset, offset + |units|);
  }

  lemma Utf16First(s: Text)
    requires Utf16(s) != []
    ensures s != [] && Utf16(s) == Units(s[0]) + Utf16(s[1..])
  {
  }

  lemma Utf16Push(s: Text, k: nat)
    requires k < |s|
    ensures |Utf16(s[..k + 1])| == |Units(s[0])| + |Utf16(s[1..][..k])|
    ensures s[k + 1..] == s[1..][k..]
  {
    assert s[..k + 1][1..] == s[1..][..k];
  }
}
