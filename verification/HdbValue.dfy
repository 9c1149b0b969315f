/** Input parameter values of src/protocol/parts/hdb_value.rs: their size and their wire form. */
module HdbValue {
  import opened Wrappers
  import opened Unicode
  import opened Numbers
  import opened LittleEndian
  import opened Cesu8Util
  import HdbDecimal
  import FixedDecimal

  const MAX_1_BYTE_LENGTH: nat := 245
  const MAX_2_BYTE_LENGTH: nat := 32_767
  const LENGTH_INDICATOR_2BYTE: byte := 246
  const LENGTH_INDICATOR_4BYTE: byte := 247
  const LENGTH_INDICATOR_NULL: byte := 255

  // ---- Reading from a stream ----

  /** `parse_bytes`: takes exactly `n` bytes off the stream. */
  function ParseBytes(n: nat, input: seq<byte>): Result<(seq<byte>, seq<byte>)> {
    if n <= |input| then Ok((input[..n], input[n..])) else Err(IoError)
  }

  lemma ParseBytesExact(b: seq<byte>, rest: seq<byte>)
    ensures ParseBytes(|b|, b + rest) == Ok((b, rest))
  {
  }

  /** The cast of a signed integer to `usize`. */
  function AsUsize(v: int): nat
    requires v >= -0x8000_0000
  {
    if v >= 0 then v else v + 0x1_0000_0000_0000_0000
  }

  // ---- Length-prefixed values ----

  function BinaryLength(l: nat): nat {
    if l <= MAX_1_BYTE_LENGTH then 1 + l
    else if l <= MAX_2_BYTE_LENGTH then 3 + l
    else 5 + l
  }

  function EmitLengthAndBytes(v: seq<byte>): seq<byte> {
    var l := |v|;
    (if l <= MAX_1_BYTE_LENGTH then [l]
     else if l <= MAX_2_BYTE_LENGTH then [LENGTH_INDICATOR_2BYTE] + Digits(l, 2)
     else [LENGTH_INDICATOR_4BYTE] + Digits(l, 4)) + v
  }

  /** `parse_length_and_bytes`, after the first byte `l8` was read. */
  function ParseLengthAndBytes(l8: byte, input: seq<byte>): (r: Result<(seq<byte>, seq<byte>)>)
    ensures l8 > 247 ==> r.Err?
  {
    if l8 <= MAX_1_BYTE_LENGTH then ParseBytes(l8, input)
    else if l8 == LENGTH_INDICATOR_2BYTE then
      if |input| < 2 then Err(IoError)
      else
        SignedBounds(input[..2]);
        ParseBytes(AsUsize(SignedValue(input[..2])), input[2..])
    else if l8 == LENGTH_INDICATOR_4BYTE then
      if |input| < 4 then Err(IoError)
      else
        SignedBounds(input[..4]);
        ParseBytes(AsUsize(SignedValue(input[..4])), input[4..])
    else Err(IoError)
  }

  lemma SignedBounds(b: seq<byte>)
    requires |b| == 2 || |b| == 4
    ensures SignedValue(b) >= -0x8000_0000
  {
  }

  /** `size` and `emit` agree. */
  lemma BinaryLengthAgrees(v: seq<byte>)
    ensures |EmitLengthAndBytes(v)| == BinaryLength(|v|)
  {
  }

  /** Parsing gives back the value and consumes exactly its bytes; a value is never taken for NULL. */
  lemma LengthAndBytesRoundTrip(v: seq<byte>, rest: seq<byte>)
    requires |v| < 0x8000_0000
    ensures var b := EmitLengthAndBytes(v);
            && b != [] && b[0] != LENGTH_INDICATOR_NULL
            && ParseLengthAndBytes(b[0], b[1..] + rest) == Ok((v, rest))
  {
    hide Digits, SignedValue, Pow256;
    var l, b := |v|, EmitLengthAndBytes(v);
    ParseBytesExact(v, rest);
    Pow256Values();
    if l <= MAX_1_BYTE_LENGTH {
      assert b[1..] + rest == v + rest;
    } else {
      var k := if l <= MAX_2_BYTE_LENGTH then 2 else 4;
      var d := Digits(l, k);
      SignedRoundTrip(l, k);
      assert b[1..] == d + v;
      var input := b[1..] + rest;
      assert input[..k] == d && input[k..] == v + rest;
    }
  }

  /** The documented length indicators: one byte up to 245, 246 and two bytes up to 32767, 247 and four bytes beyond. */
  lemma LengthIndicator(v: seq<byte>)
    requires |v| < 0x1_0000_0000
    ensures var b := EmitLengthAndBytes(v);
            if |v| <= 245 then b == [|v|] + v
            else if |v| <= 32_767 then |b| == 3 + |v| && b[0] == 246 && LeValue(b[1..3]) == |v| && b[3..] == v
            else |b| == 5 + |v| && b[0] == 247 && LeValue(b[1..5]) == |v| && b[5..] == v
  {
    hide Digits, LeValue, Pow256;
    var b := EmitLengthAndBytes(v);
    Pow256Values();
    if 245 < |v| <= 32_767 {
      UnsignedRoundTrip(|v|, 2);
      assert b[1..3] == Digits(|v|, 2);
    } else if |v| > 32_767 {
      UnsignedRoundTrip(|v|, 4);
      assert b[1..5] == Digits(|v|, 4);
    }
  }

  /** A length that does not fit its signed field is read back as another one. */
  lemma LengthFieldTooSmall(l: nat, k: nat)
    requires k == 2 || k == 4
    requires Pow256(k) <= 2 * l && l < 0x8000_0000_0000_0000
    ensures SignedValue(Digits(l, k)) >= -0x8000_0000 && AsUsize(SignedValue(Digits(l, k))) != l
  {
    SignedBounds(Digits(l, k));
    LeValueOfDigits(l, k);
    Pow256Values();
    hide Digits, LeValue, Pow256;
    if l < Pow256(k) {
      DivisionIsUnique(l, Pow256(k), 0, l);
    }
  }

  /** From 2^31 bytes on, up to any length a vector can have, another number of bytes is taken for the value. */
  lemma OverlongIsLost(v: seq<byte>, rest: seq<byte>)
    requires 0x8000_0000 <= |v| < 0x8000_0000_0000_0000
    ensures var b := EmitLengthAndBytes(v);
            var r := ParseLengthAndBytes(b[0], b[1..] + rest);
            r.Ok? ==> |r.value.1| != |rest|
  {
    hide Digits, SignedValue, Pow256;
    var b := EmitLengthAndBytes(v);
    Pow256Values();
    LengthFieldTooSmall(|v|, 4);
    var input := b[1..] + rest;
    assert b[1..] == Digits(|v|, 4) + v;
    assert input[..4] == Digits(|v|, 4);
  }

  // ---- Values ----

  /** The type ids that make a difference for sending; all others are `Plain`. */
  datatype TypeId = FIXED8 | FIXED12 | FIXED16 | DECIMAL | SECONDTIME | Plain(code: byte)
  {
    function Code(): byte {
      match this
      case FIXED8 => 81
      case FIXED12 => 82
      case FIXED16 => 76
      case DECIMAL => 5
      case SECONDTIME => 64
      case Plain(code) => code
    }
  }

  const SECONDDATE_CODE: byte := 62

  /**
   * A value. For decimals, `scaled` is the mantissa at the scale of the parameter. Floating-point numbers are
   * words of four and eight bytes. CLOB, NCLOB, BLOB and an open LOBSTREAM cannot be sent in a parameter row.
   */
  datatype HdbValue =
    | NOTHING
    | NULL
    | TINYINT(u: nat)
    | SMALLINT(i: int)
    | INT(i: int)
    | BIGINT(i: int)
    | DecimalValue(bigint: int, negExponent: int, scaled: int)
    | REAL(word: nat)
    | DOUBLE(word: nat)
    | BOOLEAN(b: bool)
    | LONGDATE(raw: int)
    | SECONDDATE(raw: int)
    | DAYDATE(raw: int)
    | SecondTime(raw: int)
    | LobstreamNone
    | STRING(s: Text)
    | BINARY(bytes: seq<byte>)
    | LobValue

  /** `type_id_for_emit` followed by `type_code`. */
  function TypeCode(v: HdbValue, requested: TypeId): Result<int> {
    match v
    case NOTHING => Err(UsageError)
    case NULL => Ok(128 + if requested.SECONDTIME? then SECONDDATE_CODE else requested.Code())
    case TINYINT(_) => Ok(1)
    case SMALLINT(_) => Ok(2)
    case INT(_) => Ok(3)
    case BIGINT(_) => Ok(4)
    case DecimalValue(_, _, _) =>
      if requested.FIXED8? || requested.FIXED12? || requested.FIXED16? || requested.DECIMAL? then Ok(requested.Code())
      else Err(ImplError)
    case REAL(_) => Ok(6)
    case DOUBLE(_) => Ok(7)
    case BOOLEAN(_) => Ok(28)
    case LONGDATE(_) => Ok(61)
    case SECONDDATE(_) => Ok(62)
    case DAYDATE(_) => Ok(63)
    case SecondTime(_) => Ok(64)
    case LobstreamNone => Ok(requested.Code())
    case LobValue => Ok(requested.Code())
    case STRING(_) => Ok(29)
    case BINARY(_) => Ok(12)
  }

  /** `decimal::emit` */
  function EmitDecimal(v: HdbValue, t: TypeId): Result<seq<byte>>
    requires v.DecimalValue?
  {
    match t
    case DECIMAL =>
      var raw := HdbDecimal.Encoded(v.bigint, v.negExponent);
      if raw.Ok? then Ok(raw.value) else Err(raw.error)
    case FIXED8 => if FitsSigned(v.scaled, 8) then Ok(Digits(v.scaled, 8)) else Err(IoError)
    case FIXED12 => Ok(FixedDecimal.Fixed12Bytes(v.scaled))
    case FIXED16 => if FitsSigned(v.scaled, 16) then Ok(Digits(v.scaled, 16)) else Err(IoError)
    case _ => Err(IoError)
  }

  /** What follows the type code. */
  function EmitData(v: HdbValue, t: TypeId): Result<seq<byte>> {
    match v
    case NULL => Ok([])
    case TINYINT(u) => Ok(Digits(u, 1))
    case SMALLINT(i) => Ok(Digits(i, 2))
    case INT(i) => Ok(Digits(i, 4))
    case BIGINT(i) => Ok(Digits(i, 8))
    case DecimalValue(_, _, _) => EmitDecimal(v, t)
    case REAL(word) => Ok(Digits(word, 4))
    case DOUBLE(word) => Ok(Digits(word, 8))
    case BOOLEAN(b) => Ok([if b then 2 else 0])
    case LONGDATE(raw) => Ok(Digits(raw, 8))
    case SECONDDATE(raw) => Ok(Digits(raw, 8))
    case DAYDATE(raw) => Ok(Digits(raw, 4))
    case SecondTime(raw) => Ok(Digits(raw, 4))
    case LobstreamNone => Ok([0] + Digits(0, 4) + Digits(0, 4))   // emit_lob_header with length 0
    case STRING(s) => Ok(EmitLengthAndBytes(Cesu8(s)))
    case BINARY(bytes) => Ok(EmitLengthAndBytes(bytes))
    case NOTHING => Err(IoError)
    case LobValue => Err(IoError)
  }

  function Emit(v: HdbValue, t: TypeId): Result<seq<byte>> {
    var code := TypeCode(v, t);
    if code.Err? then Err(IoError)
    else
      var data := EmitData(v, t);
      if data.Err? then data else Ok([code.value % 256] + data.value)
  }

  /** `size`, computed before anything is written. */
  function Size(v: HdbValue, t: TypeId): Result<nat> {
    match v
    case NOTHING => Ok(1)
    case NULL => Ok(1)
    case BOOLEAN(_) => Ok(2)
    case TINYINT(_) => Ok(2)
    case SMALLINT(_) => Ok(3)
    case DecimalValue(_, _, _) =>
      (match t
       case FIXED8 => Ok(9)
       case FIXED12 => Ok(13)
       case FIXED16 => Ok(17)
       case DECIMAL => Ok(17)
       case _ => Err(IoError))
    case INT(_) => Ok(5)
    case REAL(_) => Ok(5)
    case DAYDATE(_) => Ok(5)
    case SecondTime(_) => Ok(5)
    case BIGINT(_) => Ok(9)
    case DOUBLE(_) => Ok(9)
    case LONGDATE(_) => Ok(9)
    case SECONDDATE(_) => Ok(9)
    case LobstreamNone => Ok(10)
    case STRING(s) => Ok(1 + BinaryLength(|Cesu8(s)|))
    case BINARY(bytes) => Ok(1 + BinaryLength(|bytes|))
    case LobValue => Err(IoError)
  }

  /** The one value whose size is computed wrong: a FIXED12 beyond 96 bits. */
  predicate WellSized(v: HdbValue, t: TypeId) {
    v.DecimalValue? && t.FIXED12? ==> FitsSigned(v.scaled, 12)
  }

  /**
   * A value that can be sent has the computed size exactly if it is well-sized, and a greater one if not; what
   * has no size cannot be sent.
   */
  lemma SizeAgrees(v: HdbValue, t: TypeId)
    ensures Emit(v, t).Ok? ==> Size(v, t).Ok? && Size(v, t).value <= |Emit(v, t).value|
    ensures Emit(v, t).Ok? ==> (Size(v, t).value == |Emit(v, t).value| <==> WellSized(v, t))
  {
    hide Digits, EmitLengthAndBytes, FixedDecimal.Fixed12Bytes, HdbDecimal.Encoded, FitsSigned, Encode;
    match v
    case STRING(s) => BinaryLengthAgrees(Cesu8(s));
    case BINARY(bytes) => BinaryLengthAgrees(bytes);
    case DecimalValue(_, _, scaled) => FixedDecimal.Fixed12Size(scaled);
    case _ =>
  }

  /** Which values can be sent for a parameter. */
  ghost predicate CanBeSent(v: HdbValue, t: TypeId) {
    match v
    case NOTHING => false
    case LobValue => false
    case DecimalValue(bigint, negExponent, scaled) =>
      (match t
       case DECIMAL =>
         var (s, z) := HdbDecimal.StripTens(bigint);
         -6143 <= -negExponent + z + HdbDecimal.CutDigits(s).1 <= 6144
       case FIXED8 => FitsSigned(scaled, 8)
       case FIXED12 => true
       case FIXED16 => FitsSigned(scaled, 16)
       case _ => false)
    case _ => true
  }

  lemma EmitSucceedsIff(v: HdbValue, t: TypeId)
    ensures Emit(v, t).Ok? <==> CanBeSent(v, t)
    ensures Size(v, t).Ok? <==> !v.LobValue? && (v.DecimalValue? ==> !t.Plain? && !t.SECONDTIME?)
  {
    hide Digits, EmitLengthAndBytes, FixedDecimal.Fixed12Bytes, HdbDecimal.Encoded, FitsSigned, Encode,
      HdbDecimal.StripTens, HdbDecimal.CutDigits, HdbDecimal.ReadsBackAs, HdbDecimal.IntoBigdecimal, HdbDecimal.IsNull;
    if v.DecimalValue? {
      HdbDecimal.EncodedMeans(v.bigint, v.negExponent);
    }
  }

  // ---- What a reader of parameters finds ----

  /** The content of a value, as the wire formats describe it. */
  datatype Content =
    | Nothing
    | Number(n: int)
    | Flag(b: bool)
    | Decimal(mantissa: int, exponent: int)
    | Chars(s: Text)
    | Bytes(bytes: seq<byte>)
    | LobHeader(options: byte, length: int, position: int)

  /** A type code and the value of that type. */
  datatype Found = Found(code: byte, content: Content)

  function ReadSigned(k: nat, rdr: seq<byte>): Result<(Content, seq<byte>)> {
    if |rdr| < k then Err(IoError) else Ok((Number(SignedValue(rdr[..k])), rdr[k..]))
  }

  function ReadUnsigned(k: nat, rdr: seq<byte>): Result<(Content, seq<byte>)> {
    if |rdr| < k then Err(IoError) else Ok((Number(LeValue(rdr[..k])), rdr[k..]))
  }

  function ReadFlag(rdr: seq<byte>): Result<(Content, seq<byte>)> {
    if rdr != [] && (rdr[0] == 0 || rdr[0] == 2) then Ok((Flag(rdr[0] == 2), rdr[1..])) else Err(IoError)
  }

  function ReadDecimal(rdr: seq<byte>): Result<(Content, seq<byte>)> {
    if |rdr| < 16 || HdbDecimal.IsNull(rdr[..16]) then Err(IoError)
    else
      var (mantissa, exponent) := HdbDecimal.IntoBigdecimal(rdr[..16]);
      Ok((Decimal(mantissa, exponent), rdr[16..]))
  }

  function ReadBytes(rdr: seq<byte>): Result<(seq<byte>, seq<byte>)> {
    if rdr == [] || rdr[0] == 255 then Err(IoError) else ParseLengthAndBytes(rdr[0], rdr[1..])
  }

  function ReadBinary(rdr: seq<byte>): Result<(Content, seq<byte>)> {
    var b := ReadBytes(rdr);
    if b.Err? then Err(b.error) else Ok((Bytes(b.value.0), b.value.1))
  }

  function ReadString(rdr: seq<byte>): (r: Result<(Content, seq<byte>)>)
    ensures r.Ok? ==> r.value.0.Chars?
  {
    var b := ReadBytes(rdr);
    if b.Err? then Err(b.error)
    else
      var s := StringFromCesu8(b.value.0);
      if s.Err? then Err(s.error) else Ok((Chars(s.value), b.value.1))
  }

  function ReadLobHeader(rdr: seq<byte>): Result<(Content, seq<byte>)> {
    if |rdr| < 9 then Err(IoError)
    else Ok((LobHeader(rdr[0], SignedValue(rdr[1..5]), SignedValue(rdr[5..9])), rdr[9..]))
  }

  const LOB_CODES: set<int> := {25, 26, 27, 51, 53}   // CLOB, NCLOB, BLOB, TEXT, BINTEXT

  /** The formats by type code; a code from 128 on stands for NULL, and nothing follows. */
  function ReadContent(code: byte, rdr: seq<byte>): Result<(Content, seq<byte>)> {
    if code >= 128 then Ok((Nothing, rdr))
    else if code in LOB_CODES then ReadLobHeader(rdr)
    else
      match code
      case 1 => ReadUnsigned(1, rdr)    // TINYINT
      case 2 => ReadSigned(2, rdr)      // SMALLINT
      case 3 => ReadSigned(4, rdr)      // INT
      case 4 => ReadSigned(8, rdr)      // BIGINT
      case 5 => ReadDecimal(rdr)        // DECIMAL
      case 6 => ReadUnsigned(4, rdr)    // REAL
      case 7 => ReadUnsigned(8, rdr)    // DOUBLE
      case 12 => ReadBinary(rdr)        // BINARY
      case 28 => ReadFlag(rdr)          // BOOLEAN
      case 29 => ReadString(rdr)        // STRING
      case 61 => ReadSigned(8, rdr)     // LONGDATE
      case 62 => ReadSigned(8, rdr)     // SECONDDATE
      case 63 => ReadSigned(4, rdr)     // DAYDATE
      case 64 => ReadUnsigned(4, rdr)   // SECONDTIME
      case 76 => ReadSigned(16, rdr)    // FIXED16
      case 81 => ReadSigned(8, rdr)     // FIXED8
      case 82 => ReadSigned(12, rdr)    // FIXED12
      case _ => Err(IoError)
  }

  function ReadValue(input: seq<byte>): Result<(Found, seq<byte>)> {
    if input == [] then Err(IoError)
    else
      var content := ReadContent(input[0], input[1..]);
      if content.Err? then Err(content.error) else Ok((Found(input[0], content.value.0), content.value.1))
  }

  /** Values in the range of their Rust types, for a type id that exists, and the empty LOB stream for a LOB only. */
  predicate OfRustType(v: HdbValue, t: TypeId) {
    && t.Code() < 128
    && match v
       case TINYINT(u) => u < 256
       case SMALLINT(i) => FitsSigned(i, 2)
       case INT(i) => FitsSigned(i, 4)
       case BIGINT(i) => FitsSigned(i, 8)
       case REAL(word) => word < Pow256(4)
       case DOUBLE(word) => word < Pow256(8)
       case LONGDATE(raw) => FitsSigned(raw, 8)
       case SECONDDATE(raw) => FitsSigned(raw, 8)
       case DAYDATE(raw) => FitsSigned(raw, 4)
       case SecondTime(raw) => 0 <= raw < Pow256(4)
       case STRING(s) => |Cesu8(s)| < 0x8000_0000_0000_0000
       case BINARY(bytes) => |bytes| < 0x8000_0000_0000_0000
       case LobstreamNone => t.Code() as int in LOB_CODES
       case _ => true
  }

  /** The length fields are signed 32-bit numbers. */
  predicate HasLength(v: HdbValue) {
    && (v.STRING? ==> |Cesu8(v.s)| < 0x8000_0000)
    && (v.BINARY? ==> |v.bytes| < 0x8000_0000)
  }

  /** What the reader should find for a value. */
  ghost predicate Arrives(v: HdbValue, t: TypeId, found: Found) {
    match v
    case NULL => found.code as int == 128 + (if t.SECONDTIME? then 62 else t.Code() as int) && found.content == Nothing
    case TINYINT(u) => found == Found(1, Number(u))
    case SMALLINT(i) => found == Found(2, Number(i))
    case INT(i) => found == Found(3, Number(i))
    case BIGINT(i) => found == Found(4, Number(i))
    case REAL(word) => found == Found(6, Number(word))
    case DOUBLE(word) => found == Found(7, Number(word))
    case BINARY(bytes) => found == Found(12, Bytes(bytes))
    case BOOLEAN(b) => found == Found(28, Flag(b))
    case STRING(s) => found == Found(29, Chars(s))
    case LONGDATE(raw) => found == Found(61, Number(raw))
    case SECONDDATE(raw) => found == Found(62, Number(raw))
    case DAYDATE(raw) => found == Found(63, Number(raw))
    case SecondTime(raw) => found == Found(64, Number(raw))
    case DecimalValue(bigint, negExponent, scaled) =>
      (match t
       case DECIMAL =>
         && found.code == 5 && found.content.Decimal?
         && HdbDecimal.ReadsBackAs(found.content.mantissa, found.content.exponent, bigint, -negExponent)
       case FIXED8 => found == Found(81, Number(scaled))
       case FIXED12 => found == Found(82, Number(scaled))
       case FIXED16 => found == Found(76, Number(scaled))
       case _ => false)
    case LobstreamNone => found == Found(t.Code(), LobHeader(0, 0, 0))
    case NOTHING => false
    case LobValue => false
  }

  lemma SignedIsRead(n: int, k: nat, rest: seq<byte>)
    requires FitsSigned(n, k)
    ensures ReadSigned(k, Digits(n, k) + rest) == Ok((Number(n), rest))
  {
    SignedRoundTrip(n, k);
    hide Digits, SignedValue, Pow256;
    var rdr := Digits(n, k) + rest;
    assert rdr[..k] == Digits(n, k) && rdr[k..] == rest;
  }

  lemma UnsignedIsRead(n: nat, k: nat, rest: seq<byte>)
    requires n < Pow256(k)
    ensures ReadUnsigned(k, Digits(n, k) + rest) == Ok((Number(n), rest))
  {
    UnsignedRoundTrip(n, k);
    hide Digits, LeValue, Pow256;
    var rdr := Digits(n, k) + rest;
    assert rdr[..k] == Digits(n, k) && rdr[k..] == rest;
  }

  lemma DecimalIsRead(bigint: int, negExponent: int, rest: seq<byte>)
    requires HdbDecimal.Encoded(bigint, negExponent).Ok?
    ensures var r := ReadDecimal(HdbDecimal.Encoded(bigint, negExponent).value + rest);
            && r.Ok? && r.value.1 == rest && r.value.0.Decimal?
            && HdbDecimal.ReadsBackAs(r.value.0.mantissa, r.value.0.exponent, bigint, -negExponent)
  {
    HdbDecimal.EncodedMeans(bigint, negExponent);
    hide HdbDecimal.Encoded, HdbDecimal.ReadsBackAs, HdbDecimal.IntoBigdecimal, HdbDecimal.IsNull,
      HdbDecimal.StripTens, HdbDecimal.CutDigits;
    var raw := HdbDecimal.Encoded(bigint, negExponent).value;
    assert (raw + rest)[..16] == raw && (raw + rest)[16..] == rest;
  }

  lemma BytesAreRead(v: seq<byte>, rest: seq<byte>)
    requires |v| < 0x8000_0000_0000_0000
    ensures var r := ReadBytes(EmitLengthAndBytes(v) + rest);
            if |v| < 0x8000_0000 then r == Ok((v, rest)) else r.Ok? ==> |r.value.1| != |rest|
  {
    BinaryLengthAgrees(v);
    if |v| < 0x8000_0000 {
      LengthAndBytesRoundTrip(v, rest);
    } else {
      OverlongIsLost(v, rest);
    }
    hide EmitLengthAndBytes, ParseLengthAndBytes;
    var b := EmitLengthAndBytes(v);
    assert (b + rest)[0] == b[0] && (b + rest)[1..] == b[1..] + rest;
  }

  lemma LobHeaderIsRead(rest: seq<byte>)
    ensures ReadLobHeader([0] + Digits(0, 4) + Digits(0, 4) + rest) == Ok((LobHeader(0, 0, 0), rest))
  {
    SignedRoundTrip(0, 4);
    hide Digits, SignedValue, Pow256;
    var rdr := [0] + Digits(0, 4) + Digits(0, 4) + rest;
    assert rdr[1..5] == Digits(0, 4) && rdr[5..9] == Digits(0, 4) && rdr[9..] == rest;
  }

  lemma Fixed12IsRead(scaled: int, rest: seq<byte>)
    ensures var r := ReadSigned(12, FixedDecimal.Fixed12Bytes(scaled) + rest);
            if FitsSigned(scaled, 12) then r == Ok((Number(scaled), rest)) else r.Ok? ==> |r.value.1| != |rest|
  {
    FixedDecimal.Fixed12Size(scaled);
    if FitsSigned(scaled, 12) {
      SignedIsRead(scaled, 12, rest);
    }
  }

  lemma DecimalContentIsRead(v: HdbValue, t: TypeId, rest: seq<byte>)
    requires v.DecimalValue? && Emit(v, t).Ok?
    ensures var code, data := TypeCode(v, t).value, EmitData(v, t).value;
            && 0 <= code < 128
            && var r := ReadContent(code, data + rest);
               if WellSized(v, t) then r.Ok? && r.value.1 == rest && Arrives(v, t, Found(code, r.value.0))
               else r.Ok? ==> |r.value.1| != |rest|
  {
    hide Digits, SignedValue, FitsSigned, Pow256, ReadSigned, ReadDecimal, HdbDecimal.Encoded, HdbDecimal.ReadsBackAs,
      FixedDecimal.Fixed12Bytes;
    if t.DECIMAL? {
      DecimalIsRead(v.bigint, v.negExponent, rest);
    } else if t.FIXED8? {
      SignedIsRead(v.scaled, 8, rest);
    } else if t.FIXED12? {
      Fixed12IsRead(v.scaled, rest);
    } else if t.FIXED16? {
      SignedIsRead(v.scaled, 16, rest);
    }
  }

  predicate IsNumber(v: HdbValue) {
    v.TINYINT? || v.SMALLINT? || v.INT? || v.BIGINT? || v.REAL? || v.DOUBLE? || v.LONGDATE? || v.SECONDDATE? || v.DAYDATE?
    || v.SecondTime?
  }

  lemma NumberContentIsRead(v: HdbValue, t: TypeId, rest: seq<byte>)
    requires IsNumber(v) && OfRustType(v, t)
    ensures TypeCode(v, t).Ok? && EmitData(v, t).Ok?
    ensures var code, data := TypeCode(v, t).value, EmitData(v, t).value;
            && 0 <= code < 128
            && var r := ReadContent(code, data + rest);
               r.Ok? && r.value.1 == rest && Arrives(v, t, Found(code, r.value.0))
  {
    hide Digits, FitsSigned, Pow256, ReadSigned, ReadUnsigned;
    match v {
      case TINYINT(u) => TinyIsRead(u, rest);
      case SMALLINT(i) => SignedIsRead(i, 2, rest);
      case INT(i) => SignedIsRead(i, 4, rest);
      case BIGINT(i) => SignedIsRead(i, 8, rest);
      case REAL(word) => UnsignedIsRead(word, 4, rest);
      case DOUBLE(word) => UnsignedIsRead(word, 8, rest);
      case LONGDATE(raw) => SignedIsRead(raw, 8, rest);
      case SECONDDATE(raw) => SignedIsRead(raw, 8, rest);
      case DAYDATE(raw) => SignedIsRead(raw, 4, rest);
      case SecondTime(raw) => UnsignedIsRead(raw, 4, rest);
      case _ =>
    }
  }

  /** The content is found behind the type code, whatever follows, exactly if the value is well-sized and not too long. */
  lemma ContentIsRead(v: HdbValue, t: TypeId, rest: seq<byte>)
    requires Emit(v, t).Ok? && OfRustType(v, t)
    ensures var code, data := TypeCode(v, t).value, EmitData(v, t).value;
            && 0 <= code < 256
            && var r := ReadContent(code, data + rest);
               if WellSized(v, t) && HasLength(v) then r.Ok? && r.value.1 == rest && Arrives(v, t, Found(code, r.value.0))
               else r.Ok? ==> |r.value.1| != |rest|
  {
    hide ReadContent, Arrives, EmitData, FitsSigned, Pow256, Encode;
    if IsNumber(v) {
      NumberContentIsRead(v, t, rest);
    } else if v.DecimalValue? {
      DecimalContentIsRead(v, t, rest);
    } else {
      OtherContentIsRead(v, t, rest);
    }
  }

  lemma OtherContentIsRead(v: HdbValue, t: TypeId, rest: seq<byte>)
    requires Emit(v, t).Ok? && OfRustType(v, t) && !IsNumber(v) && !v.DecimalValue?
    ensures var code, data := TypeCode(v, t).value, EmitData(v, t).value;
            && 0 <= code < 256
            && var r := ReadContent(code, data + rest);
               if WellSized(v, t) && HasLength(v) then r.Ok? && r.value.1 == rest && Arrives(v, t, Found(code, r.value.0))
               else r.Ok? ==> |r.value.1| != |rest|
  {
    hide Digits, SignedValue, LeValue, Encode, StringFromCesu8, EmitLengthAndBytes, ReadBytes, ReadLobHeader;
    if v.NULL? {
      assert [] + rest == rest;
    } else if v.BOOLEAN? {
      assert ([if v.b then 2 else 0] + rest)[1..] == rest;
    } else if v.LobstreamNone? {
      LobHeaderIsRead(rest);
    } else if v.STRING? {
      BytesAreRead(Cesu8(v.s), rest);
      StringFromCesu8IsDecoding(v.s);
    } else if v.BINARY? {
      BytesAreRead(v.bytes, rest);
    }
  }

  lemma TinyIsRead(u: nat, rest: seq<byte>)
    requires u < 256
    ensures ReadUnsigned(1, Digits(u, 1) + rest) == Ok((Number(u), rest))
  {
    Pow256Values();
    hide Pow256, Digits;
    UnsignedIsRead(u, 1, rest);
  }

  /** A value that can be sent comes back, and exactly its bytes are taken, if and only if it is well-sized and not too long. */
  lemma ValueIsRead(v: HdbValue, t: TypeId, rest: seq<byte>)
    requires Emit(v, t).Ok? && OfRustType(v, t)
    ensures var r := ReadValue(Emit(v, t).value + rest);
            if WellSized(v, t) && HasLength(v) then r.Ok? && r.value.1 == rest && Arrives(v, t, r.value.0)
            else r.Ok? ==> |r.value.1| != |rest|
  {
    ContentIsRead(v, t, rest);
    EmitParts(v, t);
    hide Emit, TypeCode, EmitData, ReadContent, Arrives, WellSized, HasLength, OfRustType;
    CodeFirst(TypeCode(v, t).value, EmitData(v, t).value, rest);
  }

  lemma EmitParts(v: HdbValue, t: TypeId)
    requires Emit(v, t).Ok?
    ensures TypeCode(v, t).Ok? && EmitData(v, t).Ok?
    ensures Emit(v, t).value == [TypeCode(v, t).value % 256] + EmitData(v, t).value
  {
    hide TypeCode, EmitData;
  }

  lemma CodeFirst(code: int, data: seq<byte>, rest: seq<byte>)
    requires 0 <= code < 256
    ensures var input := [code % 256] + data + rest;
            input != [] && input[0] == code && input[1..] == data + rest
  {
  }

  // ---- Rows of values ----

  /** Takes one descriptor per value; too few descriptors are an error. */
  function RowBytes(values: seq<HdbValue>, types: seq<TypeId>): Result<seq<byte>> {
    if values == [] then Ok([])
    else
      var n := |values| - 1;
      var front := RowBytes(values[..n], types);
      if front.Err? then front
      else if n >= |types| then Err(IoError)
      else
        var last := Emit(values[n], types[n]);
        if last.Err? then last else Ok(front.value + last.value)
  }

  /** There is a descriptor for each value, and each value can be sent. */
  ghost predicate RowCanBeSent(values: seq<HdbValue>, types: seq<TypeId>) {
    |values| <= |types| && forall i :: 0 <= i < |values| ==> CanBeSent(values[i], types[i])
  }

  /** There is a descriptor for each value, and each value has a size. */
  ghost predicate RowHasSize(values: seq<HdbValue>, types: seq<TypeId>) {
    |values| <= |types| && forall i :: 0 <= i < |values| ==> Size(values[i], types[i]).Ok?
  }

  lemma {:induction false} RowSucceedsIff(values: seq<HdbValue>, types: seq<TypeId>)
    ensures RowBytes(values, types).Ok? <==> RowCanBeSent(values, types)
    ensures RowSizeSpec(values, types).Ok? <==> RowHasSize(values, types)
  {
    hide Emit, Size, CanBeSent;
    if values != [] {
      var n := |values| - 1;
      RowSucceedsIff(values[..n], types);
      assert forall i :: 0 <= i < n ==> values[..n][i] == values[i];
      if n < |types| {
        EmitSucceedsIff(values[n], types[n]);
      }
    }
  }

  /** Reads `n` values, one after the other. */
  function ReadRow(n: nat, input: seq<byte>): Result<(seq<Found>, seq<byte>)> {
    if n == 0 then Ok(([], input))
    else
      var first := ReadValue(input);
      if first.Err? then Err(first.error)
      else
        var others := ReadRow(n - 1, first.value.1);
        if others.Err? then others else Ok(([first.value.0] + others.value.0, others.value.1))
  }

  /** One value more is read behind the others. */
  lemma {:induction false} ReadRowPush(n: nat, input: seq<byte>)
    requires ReadRow(n, input).Ok? && ReadValue(ReadRow(n, input).value.1).Ok?
    ensures var front := ReadRow(n, input).value;
            var last := ReadValue(front.1).value;
            ReadRow(n + 1, input) == Ok((front.0 + [last.0], last.1))
  {
    hide ReadValue;
    if n == 0 {
      var last := ReadValue(input).value;
      assert [] + [last.0] == [last.0] + [];
    } else {
      var first := ReadValue(input).value;
      ReadRowPush(n - 1, first.1);
      var others := ReadRow(n - 1, first.1).value;
      var last := ReadValue(others.1).value;
      assert [first.0] + (others.0 + [last.0]) == ([first.0] + others.0) + [last.0];
    }
  }

  /** The values of a row are in the range of their Rust types, well-sized and not too long. */
  ghost predicate RowReadable(values: seq<HdbValue>, types: seq<TypeId>) {
    && |values| <= |types|
    && forall i :: 0 <= i < |values| ==>
         OfRustType(values[i], types[i]) && WellSized(values[i], types[i]) && HasLength(values[i])
  }

  ghost predicate RowArrives(values: seq<HdbValue>, types: seq<TypeId>, found: seq<Found>) {
    && |found| == |values| <= |types|
    && forall i :: 0 <= i < |values| ==> Arrives(values[i], types[i], found[i])
  }

  /** All values of a row that can be sent are found in their order, and exactly its bytes are taken, whatever follows. */
  lemma {:induction false} RowIsRead(values: seq<HdbValue>, types: seq<TypeId>, rest: seq<byte>)
    requires RowBytes(values, types).Ok? && RowReadable(values, types)
    ensures var r := ReadRow(|values|, RowBytes(values, types).value + rest);
            r.Ok? && r.value.1 == rest && RowArrives(values, types, r.value.0)
  {
    hide Emit, ReadValue, ReadRow, Arrives, OfRustType, WellSized, HasLength;
    if values == [] {
      ReadNothing(rest);
      assert [] + rest == rest;
    } else {
      var n := |values| - 1;
      var front, last := RowBytes(values[..n], types).value, Emit(values[n], types[n]).value;
      assert front + last + rest == front + (last + rest);
      FrontReadable(values, types);
      RowIsRead(values[..n], types, last + rest);
      ValueIsRead(values[n], types[n], rest);
      ReadRowPush(n, front + (last + rest));
      ArrivesPush(values, types, ReadRow(n, front + (last + rest)).value.0, ReadValue(last + rest).value.0);
    }
  }

  lemma ReadNothing(input: seq<byte>)
    ensures ReadRow(0, input) == Ok(([], input))
  {
  }

  lemma FrontReadable(values: seq<HdbValue>, types: seq<TypeId>)
    requires values != [] && RowReadable(values, types)
    ensures RowReadable(values[..|values| - 1], types)
  {
    hide OfRustType, WellSized, HasLength;
  }

  lemma ArrivesPush(values: seq<HdbValue>, types: seq<TypeId>, found: seq<Found>, last: Found)
    requires values != [] && |values| <= |types|
    requires RowArrives(values[..|values| - 1], types, found) && Arrives(values[|values| - 1], types[|values| - 1], last)
    ensures RowArrives(values, types, found + [last])
  {
    hide Arrives;
    assert forall i :: 0 <= i < |values| - 1 ==> values[i] == values[..|values| - 1][i];
  }

  predicate RowWellSized(values: seq<HdbValue>, types: seq<TypeId>) {
    forall i :: 0 <= i < |values| && i < |types| ==> WellSized(values[i], types[i])
  }

  method RowEmit(values: seq<HdbValue>, types: seq<TypeId>) returns (r: Result<seq<byte>>)
    ensures r.Ok? <==> RowBytes(values, types).Ok?
    ensures r.Ok? ==> r == RowBytes(values, types)
    ensures r.Ok? <==> RowCanBeSent(values, types)
    ensures r.Ok? && RowReadable(values, types) ==>
              var read := ReadRow(|values|, r.value);
              read.Ok? && read.value.1 == [] && RowArrives(values, types, read.value.0)
  {
    RowSucceedsIff(values, types);
    if RowBytes(values, types).Ok? && RowReadable(values, types) {
      RowIsRead(values, types, []);
      assert RowBytes(values, types).value + [] == RowBytes(values, types).value;
    }
    hide Emit, RowCanBeSent, ReadRow, RowReadable, RowArrives;
    var w := [];
    for i := 0 to |values|
      invariant RowBytes(values[..i], types) == Ok(w)
    {
      assert values[..i + 1][..i] == values[..i];
      if i >= |types| {
        RowPrefixFails(values, types, i + 1);
        return Err(IoError);
      }
      var b := Emit(values[i], types[i]);
      if b.Err? {
        RowPrefixFails(values, types, i + 1);
        return b;
      }
      w := w + b.value;
    }
    assert values[..|values|] == values;
    return Ok(w);
  }

  lemma {:induction false} RowPrefixFails(values: seq<HdbValue>, types: seq<TypeId>, i: nat)
    requires i <= |values| && RowBytes(values[..i], types).Err?
    ensures RowBytes(values, types).Err?
    decreases |values| - i
  {
    hide Emit;
    if i < |values| {
      assert values[..i + 1][..i] == values[..i];
      RowPrefixFails(values, types, i + 1);
    } else {
      assert values[..i] == values;
    }
  }

  /** The size pass over a row that can be sent agrees with the emit pass exactly if the row is well-sized. */
  method RowSize(values: seq<HdbValue>, types: seq<TypeId>) returns (r: Result<nat>)
    ensures r.Ok? <==> RowSizeSpec(values, types).Ok?
    ensures r.Ok? ==> r == RowSizeSpec(values, types)
    ensures r.Ok? <==> RowHasSize(values, types)
    ensures RowBytes(values, types).Ok? ==>
              && r.Ok? && r.value <= |RowBytes(values, types).value|
              && (r.value == |RowBytes(values, types).value| <==> RowWellSized(values, types))
  {
    if RowBytes(values, types).Ok? {
      RowSizeAgrees(values, types);
    }
    RowSucceedsIff(values, types);
    hide RowBytes, Size, WellSized, RowWellSized, RowSizeSpec, RowHasSize, RowCanBeSent;
    RowSizeNil(types);
    var size := 0;
    for i := 0 to |values|
      invariant RowSizeSpec(values[..i], types) == Ok(size)
    {
      RowSizeStep(values, types, i);
      if i >= |types| {
        RowSizeFails(values, types, i + 1);
        return Err(IoError);
      }
      var s := Size(values[i], types[i]);
      if s.Err? {
        RowSizeFails(values, types, i + 1);
        return s;
      }
      size := size + s.value;
    }
    assert values[..|values|] == values;
    return Ok(size);
  }

  function RowSizeSpec(values: seq<HdbValue>, types: seq<TypeId>): Result<nat> {
    if values == [] then Ok(0)
    else
      var n := |values| - 1;
      var front := RowSizeSpec(values[..n], types);
      if front.Err? then front
      else if n >= |types| then Err(IoError)
      else
        var last := Size(values[n], types[n]);
        if last.Err? then last else Ok(front.value + last.value)
  }

  lemma RowSizeNil(types: seq<TypeId>)
    ensures RowSizeSpec([], types) == Ok(0)
  {
  }

  lemma RowSizeStep(values: seq<HdbValue>, types: seq<TypeId>, i: nat)
    requires i < |values| && RowSizeSpec(values[..i], types).Ok?
    ensures RowSizeSpec(values[..i + 1], types) ==
            if i >= |types| then Err(IoError)
            else if Size(values[i], types[i]).Err? then Size(values[i], types[i])
            else Ok(RowSizeSpec(values[..i], types).value + Size(values[i], types[i]).value)
  {
    hide Size;
    assert values[..i + 1][..i] == values[..i];
  }

  lemma {:induction false} RowSizeFails(values: seq<HdbValue>, types: seq<TypeId>, i: nat)
    requires i <= |values| && RowSizeSpec(values[..i], types).Err?
    ensures RowSizeSpec(values, types).Err?
    decreases |values| - i
  {
    hide Size;
    if i < |values| {
      assert values[..i + 1][..i] == values[..i];
      RowSizeFails(values, types, i + 1);
    } else {
      assert values[..i] == values;
    }
  }

  lemma {:induction false} RowSizeAgrees(values: seq<HdbValue>, types: seq<TypeId>)
    requires RowBytes(values, types).Ok?
    ensures RowSizeSpec(values, types).Ok? && RowSizeSpec(values, types).value <= |RowBytes(values, types).value|
    ensures RowSizeSpec(values, types).value == |RowBytes(values, types).value| <==> RowWellSized(values, types)
  {
    hide Emit, Size, WellSized, RowWellSized;
    if values != [] {
      var n := |values| - 1;
      RowSizeAgrees(values[..n], types);
      SizeAgrees(values[n], types[n]);
      RowWellSizedPush(values, types);
    } else {
      EmptyRowWellSized(types);
    }
  }

  lemma RowWellSizedPush(values: seq<HdbValue>, types: seq<TypeId>)
    requires values != [] && |values| <= |types|
    ensures var n := |values| - 1;
            RowWellSized(values, types) <==> RowWellSized(values[..n], types) && WellSized(values[n], types[n])
  {
    hide WellSized;
    var front := values[..|values| - 1];
    assert forall i :: 0 <= i < |front| ==> front[i] == values[i];
  }

  lemma EmptyRowWellSized(types: seq<TypeId>)
    ensures RowWellSized([], types)
  {
  }
}
