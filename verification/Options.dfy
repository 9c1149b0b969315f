/** Option values and option parts, src/protocol/parts/option_value.rs and option_part.rs. */
module Options {
  import opened Wrappers
  import opened Unicode
  import opened Numbers
  import opened LittleEndian
  import opened Cesu8Util
  import V = HdbValue

  datatype OptionValue =
    | INT(i: int)
    | BIGINT(i: int)
    | DOUBLE(word: nat)
    | BOOLEAN(b: bool)
    | STRING(s: Text)
    | BSTRING(v: seq<byte>)

  function ValueSize(o: OptionValue): nat {
    1 + match o
        case INT(_) => 4
        case BIGINT(_) => 8
        case DOUBLE(_) => 8
        case BOOLEAN(_) => 1
        case STRING(s) => |Cesu8(s)| + 2
        case BSTRING(v) => |v| + 2
  }

  function EmitLengthAndBytes(v: seq<byte>): seq<byte> {
    Digits(|v|, 2) + v
  }

  function EmitValue(o: OptionValue): seq<byte> {
    match o
    case INT(i) => [3] + Digits(i, 4)
    case BIGINT(i) => [4] + Digits(i, 8)
    case DOUBLE(word) => [7] + Digits(word, 8)
    case BOOLEAN(b) => [28, if b then 1 else 0]
    case STRING(s) => [29] + EmitLengthAndBytes(Cesu8(s))
    case BSTRING(v) => [33] + EmitLengthAndBytes(v)
  }

  function ParseLengthAndBinary(input: seq<byte>): Result<(seq<byte>, seq<byte>)> {
    if |input| < 2 then Err(IoError)
    else
      V.SignedBounds(input[..2]);
      V.ParseBytes(V.AsUsize(SignedValue(input[..2])), input[2..])
  }

  function ParseValue(input: seq<byte>): (r: Result<(OptionValue, seq<byte>)>)
    ensures input != [] && input[0] !in {3, 4, 7, 28, 29, 33} ==> r.Err?
  {
    if input == [] then Err(IoError)
    else
      var rdr := input[1..];
      match input[0]
      case 3 => if |rdr| < 4 then Err(IoError) else Ok((INT(SignedValue(rdr[..4])), rdr[4..]))
      case 4 => if |rdr| < 8 then Err(IoError) else Ok((BIGINT(SignedValue(rdr[..8])), rdr[8..]))
      case 7 => if |rdr| < 8 then Err(IoError) else Ok((DOUBLE(LeValue(rdr[..8])), rdr[8..]))
      case 28 => if |rdr| < 1 then Err(IoError) else Ok((BOOLEAN(rdr[0] > 0), rdr[1..]))
      case 29 =>
        var b := ParseLengthAndBinary(rdr);
        if b.Err? then Err(b.error)
        else
          var s := StringFromCesu8(b.value.0);
          if s.Err? then Err(IoError) else Ok((STRING(s.value), b.value.1))
      case 33 =>
        var b := ParseLengthAndBinary(rdr);
        if b.Err? then Err(b.error) else Ok((BSTRING(b.value.0), b.value.1))
      case _ => Err(IoError)
  }

  /** Values in the range of their Rust types; no vector is longer than `isize::MAX`. */
  predicate OfRustType(o: OptionValue) {
    match o
    case INT(i) => FitsSigned(i, 4)
    case BIGINT(i) => FitsSigned(i, 8)
    case DOUBLE(word) => word < Pow256(8)
    case BOOLEAN(_) => true
    case STRING(s) => |Cesu8(s)| < 0x8000_0000_0000_0000
    case BSTRING(v) => |v| < 0x8000_0000_0000_0000
  }

  /** Such values, with strings that a 16-bit length can describe. */
  predicate Representable(o: OptionValue) {
    && OfRustType(o)
    && (o.STRING? ==> |Cesu8(o.s)| < 32_768)
    && (o.BSTRING? ==> |o.v| < 32_768)
  }

  lemma LengthAndBinaryRoundTrip(v: seq<byte>, rest: seq<byte>)
    requires |v| < 32_768
    ensures ParseLengthAndBinary(EmitLengthAndBytes(v) + rest) == Ok((v, rest))
  {
    hide Digits, SignedValue, Pow256;
    Pow256Values();
    SignedRoundTrip(|v|, 2);
    V.ParseBytesExact(v, rest);
    var input := EmitLengthAndBytes(v) + rest;
    assert input[..2] == Digits(|v|, 2) && input[2..] == v + rest;
  }

  /** From 32768 bytes on the 16-bit length field is too small, and not as many bytes come back. */
  lemma OverlongIsLost(v: seq<byte>, rest: seq<byte>)
    requires 32_768 <= |v| < 0x8000_0000_0000_0000
    ensures var r := ParseLengthAndBinary(EmitLengthAndBytes(v) + rest);
            r.Ok? ==> |r.value.1| != |rest|
  {
    hide Digits, SignedValue, Pow256;
    Pow256Values();
    V.LengthFieldTooSmall(|v|, 2);
    var input := EmitLengthAndBytes(v) + rest;
    assert input[..2] == Digits(|v|, 2);
  }

  lemma FixedWidthRoundTrip(o: OptionValue, rest: seq<byte>)
    requires Representable(o) && !o.STRING? && !o.BSTRING?
    ensures ParseValue(EmitValue(o) + rest) == Ok((o, rest))
  {
    hide Digits, SignedValue, LeValue, FitsSigned, ParseLengthAndBinary, Pow256;
    var input := EmitValue(o) + rest;
    match o {
      case INT(i) =>
        SignedRoundTrip(i, 4);
        assert input[1..][..4] == Digits(i, 4) && input[1..][4..] == rest;
      case BIGINT(i) =>
        SignedRoundTrip(i, 8);
        assert input[1..][..8] == Digits(i, 8) && input[1..][8..] == rest;
      case DOUBLE(word) =>
        UnsignedRoundTrip(word, 8);
        assert input[1..][..8] == Digits(word, 8) && input[1..][8..] == rest;
      case BOOLEAN(_) =>
        assert input[1..][1..] == rest;
    }
  }

  /** A value comes back, and exactly its bytes are consumed, if and only if no string is too long. */
  lemma ValueRoundTrip(o: OptionValue, rest: seq<byte>)
    requires OfRustType(o)
    ensures ParseValue(EmitValue(o) + rest) == Ok((o, rest)) <==> Representable(o)
  {
    hide SignedValue, LeValue, FitsSigned, ParseLengthAndBinary, EmitLengthAndBytes, StringFromCesu8, Encode, Pow256;
    var input := EmitValue(o) + rest;
    match o {
      case STRING(s) =>
        assert input[1..] == EmitLengthAndBytes(Cesu8(s)) + rest;
        if |Cesu8(s)| < 32_768 {
          LengthAndBinaryRoundTrip(Cesu8(s), rest);
          StringFromCesu8IsDecoding(s);
        } else {
          OverlongIsLost(Cesu8(s), rest);
        }
      case BSTRING(v) =>
        assert input[1..] == EmitLengthAndBytes(v) + rest;
        if |v| < 32_768 {
          LengthAndBinaryRoundTrip(v, rest);
        } else {
          OverlongIsLost(v, rest);
        }
      case _ =>
        FixedWidthRoundTrip(o, rest);
    }
  }

  /** The wire form by type: the type code, then the number or flag, or a length and the bytes. */
  lemma ValueLayout(o: OptionValue)
    requires Representable(o)
    ensures var b := EmitValue(o);
            && b != []
            && match o
               case INT(i) => b[0] == 3 && |b| == 5 && SignedValue(b[1..]) == i
               case BIGINT(i) => b[0] == 4 && |b| == 9 && SignedValue(b[1..]) == i
               case DOUBLE(word) => b[0] == 7 && |b| == 9 && LeValue(b[1..]) == word
               case BOOLEAN(flag) => b == [28, if flag then 1 else 0]
               case STRING(s) => b[0] == 29 && |b| >= 3 && LeValue(b[1..3]) == |Cesu8(s)| && b[3..] == Cesu8(s)
               case BSTRING(v) => b[0] == 33 && |b| >= 3 && LeValue(b[1..3]) == |v| && b[3..] == v
  {
    Pow256Values();
    hide Digits, SignedValue, LeValue, Pow256, Encode;
    var b := EmitValue(o);
    match o {
      case INT(i) => SignedRoundTrip(i, 4);
      case BIGINT(i) => SignedRoundTrip(i, 8);
      case DOUBLE(word) => UnsignedRoundTrip(word, 8);
      case BOOLEAN(_) =>
      case STRING(s) =>
        UnsignedRoundTrip(|Cesu8(s)|, 2);
        assert b[1..3] == Digits(|Cesu8(s)|, 2);
      case BSTRING(v) =>
        UnsignedRoundTrip(|v|, 2);
        assert b[1..3] == Digits(|v|, 2);
    }
  }

  lemma ValueSizeAgrees(o: OptionValue)
    ensures |EmitValue(o)| == ValueSize(o)
  {
  }

  // ---- Maps of options, iterated in any order ----

  /** Option ids are represented by their codes. */
  type OptionMap = map<byte, OptionValue>

  /** An order in which a hash map may be iterated: every key once. */
  ghost predicate Enumerates(order: seq<byte>, m: OptionMap) {
    && (forall i :: 0 <= i < |order| ==> order[i] in m)
    && (forall k :: k in m ==> k in order)
    && (forall i, j :: 0 <= i < j < |order| ==> order[i] != order[j])
  }

  function EmitEntries(m: OptionMap, order: seq<byte>): seq<byte>
    requires forall i :: 0 <= i < |order| ==> order[i] in m
  {
    if order == [] then [] else [order[0]] + EmitValue(m[order[0]]) + EmitEntries(m, order[1..])
  }

  function ParseEntries(count: nat, input: seq<byte>, result: OptionMap): Result<(OptionMap, seq<byte>)> {
    if count == 0 then Ok((result, input))
    else if input == [] then Err(IoError)
    else
      var value := ParseValue(input[1..]);
      if value.Err? then Err(value.error)
      else ParseEntries(count - 1, value.value.1, result[input[0] := value.value.0])
  }

  function EntriesSize(m: OptionMap, order: seq<byte>): nat
    requires forall i :: 0 <= i < |order| ==> order[i] in m
  {
    if order == [] then 0 else 1 + ValueSize(m[order[0]]) + EntriesSize(m, order[1..])
  }

  /** Writing one more entry behind `w`. */
  lemma EntriesStep(m: OptionMap, order: seq<byte>, i: nat, w: seq<byte>)
    requires i < |order| && forall k :: 0 <= k < |order| ==> order[k] in m
    ensures w + EmitEntries(m, order[i..]) == (w + [order[i]] + EmitValue(m[order[i]])) + EmitEntries(m, order[i + 1..])
  {
    hide EmitValue;
    assert order[i..][0] == order[i] && order[i..][1..] == order[i + 1..];
  }

  lemma NothingLeft(m: OptionMap, order: seq<byte>, w: seq<byte>)
    requires forall k :: 0 <= k < |order| ==> order[k] in m
    ensures w + EmitEntries(m, order[|order|..]) == w
    ensures [] + EmitEntries(m, order[0..]) == EmitEntries(m, order)
  {
    assert order[0..] == order;
  }

  method Emit(m: OptionMap, order: seq<byte>) returns (w: seq<byte>)
    requires Enumerates(order, m)
    ensures w == EmitEntries(m, order)
  {
    hide EmitValue, EmitEntries;
    w := [];
    NothingLeft(m, order, w);
    for i := 0 to |order|
      invariant w + EmitEntries(m, order[i..]) == EmitEntries(m, order)
    {
      EntriesStep(m, order, i, w);
      w := w + [order[i]] + EmitValue(m[order[i]]);
    }
    NothingLeft(m, order, w);
  }

  /** The size pass, possibly in another order than the emit pass. */
  method Size(m: OptionMap, order: seq<byte>) returns (size: nat)
    requires Enumerates(order, m)
    ensures size == EntriesSize(m, order)
    ensures forall other :: Enumerates(other, m) ==> size == |EmitEntries(m, other)|
  {
    hide ValueSize;
    size := 0;
    for i := 0 to |order|
      invariant size + EntriesSize(m, order[i..]) == EntriesSize(m, order)
    {
      assert order[i..][0] == order[i] && order[i..][1..] == order[i + 1..];
      size := size + 1 + ValueSize(m[order[i]]);
    }
    forall other | Enumerates(other, m) ensures size == |EmitEntries(m, other)| {
      EntriesSizeAgrees(m, other);
      SizeOfAnyOrder(m, order, other);
    }
  }

  /** The size does not depend on the entries of other keys. */
  lemma {:induction false} SizeWithout(m: OptionMap, k: byte, order: seq<byte>)
    requires forall i :: 0 <= i < |order| ==> order[i] in m && order[i] != k
    ensures EntriesSize(m - {k}, order) == EntriesSize(m, order)
  {
    hide ValueSize;
    if order != [] {
      SizeWithout(m, k, order[1..]);
    }
  }

  lemma {:induction false} SizeConcat(m: OptionMap, a: seq<byte>, b: seq<byte>)
    requires forall i :: 0 <= i < |a| ==> a[i] in m
    requires forall i :: 0 <= i < |b| ==> b[i] in m
    ensures EntriesSize(m, a + b) == EntriesSize(m, a) + EntriesSize(m, b)
  {
    hide ValueSize;
    if a == [] {
      assert a + b == b;
    } else {
      assert (a + b)[1..] == a[1..] + b;
      SizeConcat(m, a[1..], b);
    }
  }

  lemma SizeFirst(m: OptionMap, k: byte, b: seq<byte>)
    requires k in m && forall i :: 0 <= i < |b| ==> b[i] in m
    ensures EntriesSize(m, [k] + b) == 1 + ValueSize(m[k]) + EntriesSize(m, b)
  {
    hide ValueSize;
    assert ([k] + b)[1..] == b;
  }

  /** Taking a key out of an order, and out of the map. */
  lemma SizeInside(m: OptionMap, a: seq<byte>, k: byte, b: seq<byte>)
    requires k in m && forall i :: 0 <= i < |a + b| ==> (a + b)[i] in m && (a + b)[i] != k
    ensures forall i :: 0 <= i < |a + ([k] + b)| ==> (a + ([k] + b))[i] in m
    ensures EntriesSize(m, a + ([k] + b)) == 1 + ValueSize(m[k]) + EntriesSize(m - {k}, a + b)
  {
    hide ValueSize, EntriesSize;
    assert forall i :: 0 <= i < |a| ==> (a + b)[i] == a[i];
    assert forall i :: 0 <= i < |b| ==> (a + b)[|a| + i] == b[i];
    SizeFirst(m, k, b);
    SizeConcat(m, a, [k] + b);
    SizeConcat(m, a, b);
    SizeWithout(m, k, a + b);
  }

  function Without(order: seq<byte>, i: nat): (others: seq<byte>)
    requires i < |order|
    ensures |others| == |order| - 1
  {
    order[..i] + order[i + 1..]
  }

  lemma OthersRemain(m: OptionMap, order: seq<byte>, i: nat)
    requires Enumerates(order, m) && i < |order|
    ensures Enumerates(Without(order, i), m - {order[i]})
  {
    var k, others := order[i], Without(order, i);
    assert forall j :: 0 <= j < |others| ==> others[j] == order[if j < i then j else j + 1];
    forall x | x in m - {k} ensures x in others {
      var j :| 0 <= j < |order| && order[j] == x;
      assert others[if j < i then j else j - 1] == x;
    }
  }

  lemma KeysOfOthers(m: OptionMap, order: seq<byte>, i: nat)
    requires Enumerates(order, m) && i < |order|
    ensures forall j :: 0 <= j < |Without(order, i)| ==> Without(order, i)[j] in m && Without(order, i)[j] != order[i]
  {
    forall j | 0 <= j < |Without(order, i)| ensures Without(order, i)[j] in m && Without(order, i)[j] != order[i] {
      var from := if j < i then j else j + 1;
      assert Without(order, i)[j] == order[from];
      assert from < i ==> order[from] != order[i];
      assert i < from ==> order[i] != order[from];
    }
  }

  lemma SplitAround(order: seq<byte>, i: nat)
    requires i < |order|
    ensures order == order[..i] + ([order[i]] + order[i + 1..])
  {
  }

  lemma TakeOut(m: OptionMap, order: seq<byte>, i: nat)
    requires Enumerates(order, m) && i < |order|
    ensures Enumerates(Without(order, i), m - {order[i]})
    ensures EntriesSize(m, order) == 1 + ValueSize(m[order[i]]) + EntriesSize(m - {order[i]}, Without(order, i))
  {
    OthersRemain(m, order, i);
    KeysOfOthers(m, order, i);
    SplitAround(order, i);
    hide Enumerates, EntriesSize, ValueSize;
    SizeInside(m, order[..i], order[i], order[i + 1..]);
  }

  lemma FindKey(m: OptionMap, order: seq<byte>, k: byte) returns (i: nat)
    requires Enumerates(order, m) && k in m
    ensures i < |order| && order[i] == k
  {
    i :| 0 <= i < |order| && order[i] == k;
  }

  lemma FirstIsKey(m: OptionMap, order: seq<byte>)
    requires Enumerates(order, m) && order != []
    ensures order[0] in m
  {
  }

  /** All orders of iteration give the same size. */
  lemma {:induction false} SizeOfAnyOrder(m: OptionMap, order: seq<byte>, other: seq<byte>)
    requires Enumerates(order, m) && Enumerates(other, m)
    ensures EntriesSize(m, order) == EntriesSize(m, other)
    decreases |order|
  {
    hide ValueSize, EntriesSize, Enumerates, Without;
    OrderLength(m, order);
    OrderLength(m, other);
    if order != [] {
      FirstIsKey(m, order);
      var i := FindKey(m, other, order[0]);
      TakeOut(m, order, 0);
      TakeOut(m, other, i);
      SizeOfAnyOrder(m - {order[0]}, Without(order, 0), Without(other, i));
    }
  }

  method Parse(count: nat, input: seq<byte>) returns (r: Result<(OptionMap, seq<byte>)>)
    ensures r == ParseEntries(count, input, map[])
  {
    hide ParseValue;
    var result, rdr := map[], input;
    for i := 0 to count
      invariant ParseEntries(count, input, map[]) == ParseEntries(count - i, rdr, result)
    {
      if rdr == [] {
        return Err(IoError);
      }
      var value := ParseValue(rdr[1..]);
      if value.Err? {
        return Err(value.error);
      }
      result, rdr := result[rdr[0] := value.value.0], value.value.1;
    }
    return Ok((result, rdr));
  }

  lemma {:induction false} EntriesSizeAgrees(m: OptionMap, order: seq<byte>)
    requires forall i :: 0 <= i < |order| ==> order[i] in m
    ensures EntriesSize(m, order) == |EmitEntries(m, order)|
  {
    hide EmitValue, ValueSize;
    if order != [] {
      ValueSizeAgrees(m[order[0]]);
      EntriesSizeAgrees(m, order[1..]);
    }
  }

  /** The entries of `m` for the given keys. */
  function Restrict(m: OptionMap, keys: seq<byte>): OptionMap
    requires forall i :: 0 <= i < |keys| ==> keys[i] in m
  {
    map k | k in m && k in keys :: m[k]
  }

  lemma {:induction false} EntriesRoundTrip(m: OptionMap, order: seq<byte>, rest: seq<byte>, result: OptionMap)
    requires forall i :: 0 <= i < |order| ==> order[i] in m && Representable(m[order[i]])
    ensures ParseEntries(|order|, EmitEntries(m, order) + rest, result) == Ok((result + Restrict(m, order), rest))
  {
    hide EmitValue, ParseValue, Representable, Restrict, EmitEntries, ParseEntries;
    if order == [] {
      NoEntry(m, rest, result);
    } else {
      var k := order[0];
      FirstEntry(m, order, rest, result);
      EntriesRoundTrip(m, order[1..], rest, result[k := m[k]]);
      RestrictFirst(m, order, result);
    }
  }

  lemma NoEntry(m: OptionMap, rest: seq<byte>, result: OptionMap)
    ensures ParseEntries(0, EmitEntries(m, []) + rest, result) == Ok((result + Restrict(m, []), rest))
  {
    assert result + Restrict(m, []) == result;
    assert EmitEntries(m, []) + rest == rest;
  }

  lemma FirstEntry(m: OptionMap, order: seq<byte>, rest: seq<byte>, result: OptionMap)
    requires order != [] && forall i :: 0 <= i < |order| ==> order[i] in m && Representable(m[order[i]])
    ensures ParseEntries(|order|, EmitEntries(m, order) + rest, result) ==
            ParseEntries(|order| - 1, EmitEntries(m, order[1..]) + rest, result[order[0] := m[order[0]]])
  {
    hide EmitValue, ParseValue, OfRustType;
    var k := order[0];
    var others := EmitEntries(m, order[1..]);
    var input := EmitEntries(m, order) + rest;
    assert input[0] == k && input[1..] == EmitValue(m[k]) + (others + rest);
    ValueRoundTrip(m[k], others + rest);
  }

  lemma RestrictFirst(m: OptionMap, order: seq<byte>, result: OptionMap)
    requires order != [] && forall i :: 0 <= i < |order| ==> order[i] in m
    ensures result[order[0] := m[order[0]]] + Restrict(m, order[1..]) == result + Restrict(m, order)
  {
  }

  lemma {:induction false} OrderLength(m: OptionMap, order: seq<byte>)
    requires Enumerates(order, m)
    ensures |order| == |m|
  {
    if order != [] {
      var k := order[0];
      var m' := m - {k};
      assert m'.Keys == m.Keys - {k};
      assert |m'.Keys| == |m.Keys| - 1;
      assert forall x :: x in order <==> x == k || x in order[1..];
      assert Enumerates(order[1..], m');
      OrderLength(m', order[1..]);
    } else {
      assert m == map[];
    }
  }

  /** Whatever the order of iteration, parsing restores the map and consumes exactly its bytes. */
  lemma RoundTrip(m: OptionMap, order: seq<byte>, rest: seq<byte>)
    requires Enumerates(order, m)
    requires forall k :: k in m ==> Representable(m[k])
    ensures ParseEntries(|m|, EmitEntries(m, order) + rest, map[]) == Ok((m, rest))
  {
    hide ParseEntries, EmitEntries, Representable;
    OrderLength(m, order);
    EntriesRoundTrip(m, order, rest, map[]);
    assert map[] + Restrict(m, order) == m;
  }
}
