/**
 * The two encodings of Unicode text that meet in the LOB code: UTF-8 (section 3 of RFC 3629), used by
 * Rust strings, and CESU-8 (Unicode Technical Report #26), used by HANA.
 * The `cesu8` crate and `String::from_utf8` are taken to be these reference functions.
 */
module Unicode {
  import opened Wrappers

  type byte = b: int | 0 <= b < 0x100

  /** A Unicode scalar value: Rust's `char`. */
  type Scalar = c: int | 0 <= c < 0xD800 || 0xE000 <= c < 0x11_0000

  /** A UTF-16 code unit. */
  type CodeUnit = u: int | 0 <= u < 0x1_0000

  /** Rust's `String`, as the sequence of its characters. */
  type Text = seq<Scalar>

  datatype Form = UTF8 | CESU8

  // ---- Encoding ----

  /** The one-, two- and three-byte rows of the bit distribution table, common to both forms. */
  function EncodeUnit(u: CodeUnit): (b: seq<byte>)
    ensures 1 <= |b| <= 3
  {
    if u < 0x80 then [u]
    else if u < 0x800 then [0xC0 + u / 64, 0x80 + u % 64]
    else [0xE0 + u / 4096, 0x80 + u / 64 % 64, 0x80 + u % 64]
  }

  function High(c: Scalar): CodeUnit
    requires c >= 0x1_0000
  {
    0xD800 + (c - 0x1_0000) / 1024
  }

  function Low(c: Scalar): CodeUnit
    requires c >= 0x1_0000
  {
    0xDC00 + (c - 0x1_0000) % 1024
  }

  predicate IsHigh(u: CodeUnit) { 0xD800 <= u < 0xDC00 }

  predicate IsLow(u: CodeUnit) { 0xDC00 <= u < 0xE000 }

  /** UTF-16: one unit inside the basic multilingual plane, a surrogate pair outside. */
  function Units(c: Scalar): (us: seq<CodeUnit>)
    ensures 1 <= |us| <= 2
  {
    if c < 0x1_0000 then [c] else [High(c), Low(c)]
  }

  /** One character: the forms differ outside the basic multilingual plane only (4 bytes versus 3 + 3). */
  function EncodeChar(f: Form, c: Scalar): (b: seq<byte>)
    ensures 1 <= |b| <= (if f.UTF8? then 4 else 6)
  {
    if c < 0x1_0000 then EncodeUnit(c)
    else match f
      case UTF8 => [0xF0 + c / 262144, 0x80 + c / 4096 % 64, 0x80 + c / 64 % 64, 0x80 + c % 64]
      case CESU8 => EncodeUnit(High(c)) + EncodeUnit(Low(c))
  }

  function Encode(f: Form, s: Text): seq<byte> {
    if s == [] then [] else EncodeChar(f, s[0]) + Encode(f, s[1..])
  }

  function Utf8(s: Text): seq<byte> { Encode(UTF8, s) }

  function Cesu8(s: Text): seq<byte> { Encode(CESU8, s) }

  function Utf16(s: Text): seq<CodeUnit> {
    if s == [] then [] else Units(s[0]) + Utf16(s[1..])
  }

  function EncodeUnits(us: seq<CodeUnit>): seq<byte> {
    if us == [] then [] else EncodeUnit(us[0]) + EncodeUnits(us[1..])
  }

  // ---- Decoding ----

  predicate IsContinuation(b: byte) { 0x80 <= b < 0xC0 }

  lemma ThreeBytes(x: int, y: int, z: int)
    requires 0 <= x < 16 && 0 <= y < 64 && 0 <= z < 64 && (x == 0 ==> y >= 32)
    ensures EncodeUnit(x * 4096 + y * 64 + z) == [0xE0 + x, 0x80 + y, 0x80 + z]
  {
    var u, v := x * 4096 + y * 64 + z, x * 64 + y;
    assert u == v * 64 + z;
    assert u / 64 == v && u % 64 == z;
    assert u / 4096 == x && v % 64 == y;
  }

  /** The code unit that starts `b`, if there is a shortest-form one. */
  function DecodeUnit(b: seq<byte>): (r: Option<CodeUnit>)
    ensures r.Some? ==> EncodeUnit(r.value) <= b
  {
    if b == [] then None
    else if b[0] < 0x80 then
      assert b[..1] == [b[0]];
      Some(b[0])
    else if 0xC2 <= b[0] < 0xE0 && |b| >= 2 && IsContinuation(b[1]) then
      var u: int := (b[0] as int - 0xC0) * 64 + (b[1] - 0x80);
      assert u / 64 == b[0] - 0xC0 && u % 64 == b[1] - 0x80;
      assert b[..2] == [b[0], b[1]];
      Some(u)
    else if 0xE0 <= b[0] < 0xF0 && |b| >= 3 && IsContinuation(b[1]) && IsContinuation(b[2])
            && (b[0] == 0xE0 ==> b[1] >= 0xA0) then
      var u: int := (b[0] as int - 0xE0) * 4096 + (b[1] as int - 0x80) * 64 + (b[2] - 0x80);
      ThreeBytes(b[0] - 0xE0, b[1] - 0x80, b[2] - 0x80);
      assert b[..3] == [b[0], b[1], b[2]];
      Some(u)
    else None
  }

  lemma DecodeUnitComplete(u: CodeUnit, rest: seq<byte>)
    ensures DecodeUnit(EncodeUnit(u) + rest) == Some(u)
  {
    var b := EncodeUnit(u) + rest;
    var v := u / 64;
    assert u == 64 * v + u % 64 && v == 64 * (v / 64) + v % 64;
    if 0x80 <= u < 0x800 {
      assert b[0] == 0xC0 + v && b[1] == 0x80 + u % 64;
    } else if u >= 0x800 {
      assert u / 4096 == v / 64;
      assert b[0] == 0xE0 + v / 64 && b[1] == 0x80 + v % 64 && b[2] == 0x80 + u % 64;
    }
  }

  /** The character that starts `b` in the given form. */
  function DecodeHead(f: Form, b: seq<byte>): (r: Option<Scalar>)
    ensures r.Some? ==> EncodeChar(f, r.value) <= b
  {
    if f.UTF8? && |b| >= 4 && 0xF0 <= b[0] < 0xF5 && IsContinuation(b[1]) && IsContinuation(b[2])
       && IsContinuation(b[3]) && (b[0] == 0xF0 ==> b[1] >= 0x90) && (b[0] == 0xF4 ==> b[1] < 0x90) then
      Some(DecodeFour(b))
    else
      match DecodeUnit(b)
      case None => None
      case Some(u) =>
        if IsLow(u) then None
        else if !IsHigh(u) then Some(u)
        else if f.UTF8? then None
        else
          var rest := b[|EncodeUnit(u)|..];
          match DecodeUnit(rest)
          case None => None
          case Some(v) =>
            if !IsLow(v) then None
            else
              var c := 0x1_0000 + (u - 0xD800) * 1024 + (v - 0xDC00);
              assert High(c) == u && Low(c) == v;
              assert b == EncodeUnit(u) + rest;
              Some(c)
  }

  function DecodeFour(b: seq<byte>): (c: Scalar)
    requires |b| >= 4 && 0xF0 <= b[0] < 0xF5
    requires IsContinuation(b[1]) && IsContinuation(b[2]) && IsContinuation(b[3])
    requires b[0] == 0xF0 ==> b[1] >= 0x90
    requires b[0] == 0xF4 ==> b[1] < 0x90
    ensures c >= 0x1_0000 && EncodeChar(UTF8, c) == b[..4]
  {
    var x: int := (b[0] as int - 0xF0) * 64 + (b[1] - 0x80);
    var y: int := x * 64 + (b[2] - 0x80);
    var c: int := y * 64 + (b[3] - 0x80);
    assert c / 64 == y && c % 64 == b[3] - 0x80;
    assert c / 4096 == x && y % 64 == b[2] - 0x80;
    assert c / 262144 == b[0] - 0xF0 && x % 64 == b[1] - 0x80;
    assert b[..4] == [b[0], b[1], b[2], b[3]];
    c
  }

  lemma FourDigits(c: Scalar)
    requires c >= 0x1_0000
    ensures var (p, q, r, s) := (c / 262144, c / 4096 % 64, c / 64 % 64, c % 64);
            && c == ((p * 64 + q) * 64 + r) * 64 + s
            && 0 <= p < 5 && (p == 0 ==> q >= 16) && (p == 4 ==> q < 16)
  {
    var x, y := c / 4096, c / 64;
    assert c == y * 64 + c % 64 && y == x * 64 + y % 64 && x == c / 262144 * 64 + x % 64;
  }

  /** The payload bits of a code unit's bytes, and those of a surrogate pair, are the number that they stand for. */
  lemma BitDistribution(u: CodeUnit, c: Scalar)
    ensures var b := EncodeUnit(u);
            && (|b| == 1 <==> u < 0x80) && (|b| == 3 <==> u >= 0x800)
            && u == if |b| == 1 then b[0]
                    else if |b| == 2 then (b[0] as int - 0xC0) * 64 + (b[1] - 0x80)
                    else (b[0] as int - 0xE0) * 4096 + (b[1] as int - 0x80) * 64 + (b[2] - 0x80)
    ensures c >= 0x1_0000 ==>
              var b := EncodeChar(UTF8, c);
              && |b| == 4
              && c == (b[0] as int - 0xF0) * 262144 + (b[1] as int - 0x80) * 4096 + (b[2] as int - 0x80) * 64 + (b[3] - 0x80)
              && IsHigh(High(c)) && IsLow(Low(c))
              && c == 0x1_0000 + (High(c) - 0xD800) * 1024 + (Low(c) - 0xDC00)
              && EncodeChar(CESU8, c) == EncodeUnit(High(c)) + EncodeUnit(Low(c))
  {
    var v := u / 64;
    assert u == 64 * v + u % 64 && v == 64 * (v / 64) + v % 64 && u / 4096 == v / 64;
    if c >= 0x1_0000 {
      FourDigits(c);
    }
  }

  lemma DecodeFourComplete(c: Scalar, rest: seq<byte>)
    requires c >= 0x1_0000
    ensures DecodeHead(UTF8, EncodeChar(UTF8, c) + rest) == Some(c)
  {
    var w := EncodeChar(UTF8, c);
    var b := w + rest;
    FourDigits(c);
    assert b[0] == w[0] && b[1] == w[1] && b[2] == w[2] && b[3] == w[3];
  }

  lemma DecodePairComplete(c: Scalar, rest: seq<byte>)
    requires c >= 0x1_0000
    ensures DecodeHead(CESU8, EncodeChar(CESU8, c) + rest) == Some(c)
  {
    hide EncodeUnit, DecodeUnit;
    var h, l := EncodeUnit(High(c)), EncodeUnit(Low(c));
    var b := EncodeChar(CESU8, c) + rest;
    assert b == h + (l + rest);
    DecodeUnitComplete(High(c), l + rest);
    DecodeUnitComplete(Low(c), rest);
    assert b[|h|..] == l + rest;
  }

  lemma DecodeHeadComplete(f: Form, c: Scalar, rest: seq<byte>)
    ensures DecodeHead(f, EncodeChar(f, c) + rest) == Some(c)
  {
    if c >= 0x1_0000 {
      if f.UTF8? {
        DecodeFourComplete(c, rest);
      } else {
        DecodePairComplete(c, rest);
      }
    } else {
      DecodeUnitComplete(c, rest);
      UnitShape(c);
      assert (EncodeChar(f, c) + rest)[0] == EncodeUnit(c)[0];
    }
  }

  lemma EncodeNil(f: Form)
    ensures Encode(f, []) == []
  {
  }

  lemma EncodeCons(f: Form, c: Scalar, s: Text, b: seq<byte>)
    requires EncodeChar(f, c) <= b && Encode(f, s) == b[|EncodeChar(f, c)|..]
    ensures Encode(f, [c] + s) == b
  {
    hide EncodeChar;
    assert ([c] + s)[1..] == s;
    assert b == EncodeChar(f, c) + b[|EncodeChar(f, c)|..];
  }

  /** Decodes a whole byte sequence; whatever is accepted is the encoding of the result. */
  function Decode(f: Form, b: seq<byte>): (r: Option<Text>)
    ensures r.Some? ==> Encode(f, r.value) == b
    decreases |b|
  {
    hide EncodeChar, Encode, DecodeHead;
    if b == [] then EncodeNil(f); Some([])
    else
      match DecodeHead(f, b)
      case None => None
      case Some(c) =>
        var n := |EncodeChar(f, c)|;
        match Decode(f, b[n..])
        case None => None
        case Some(s) =>
          EncodeCons(f, c, s, b);
          Some([c] + s)
  }

  lemma {:induction false} DecodeEncode(f: Form, s: Text)
    ensures Decode(f, Encode(f, s)) == Some(s)
  {
    if s != [] {
      var b := Encode(f, s);
      DecodeHeadComplete(f, s[0], Encode(f, s[1..]));
      assert b[|EncodeChar(f, s[0])|..] == Encode(f, s[1..]);
      DecodeEncode(f, s[1..]);
      assert s == [s[0]] + s[1..];
    }
  }

  // ---- Concatenation and prefixes ----

  lemma {:induction false} EncodeConcat(f: Form, s: Text, t: Text)
    ensures Encode(f, s + t) == Encode(f, s) + Encode(f, t)
  {
    hide EncodeChar;
    if s == [] {
      assert s + t == t;
    } else {
      assert (s + t)[1..] == s[1..] + t;
      EncodeConcat(f, s[1..], t);
    }
  }

  lemma EncodeSplit(f: Form, s: Text, k: nat)
    requires k <= |s|
    ensures Encode(f, s) == Encode(f, s[..k]) + Encode(f, s[k..])
  {
    assert s == s[..k] + s[k..];
    EncodeConcat(f, s[..k], s[k..]);
  }

  lemma EncodeOne(f: Form, c: Scalar)
    ensures Encode(f, [c]) == EncodeChar(f, c)
  {
  }

  lemma EncodePush(f: Form, s: Text, k: nat)
    requires k < |s|
    ensures Encode(f, s[..k + 1]) == Encode(f, s[..k]) + EncodeChar(f, s[k])
  {
    assert s[..k + 1] == s[..k] + [s[k]];
    EncodeConcat(f, s[..k], [s[k]]);
    EncodeOne(f, s[k]);
  }

  /** Encoded text can be cancelled from the front of encoded text: both forms are prefix codes. */
  lemma {:induction false} EncodeCancel(f: Form, s: Text, b: seq<byte>, w: Text)
    requires Encode(f, s) + b == Encode(f, w)
    ensures s <= w && b == Encode(f, w[|s|..])
  {
    hide EncodeChar, DecodeHead;
    if s == [] {
      assert Encode(f, s) + b == b;
      assert w[|s|..] == w;
    } else {
      var tail := Encode(f, s[1..]) + b;
      assert Encode(f, s) + b == EncodeChar(f, s[0]) + tail;
      DecodeHeadComplete(f, s[0], tail);
      assert w != [];
      DecodeHeadComplete(f, w[0], Encode(f, w[1..]));
      assert s[0] == w[0];
      assert tail == Encode(f, w)[|EncodeChar(f, s[0])|..];
      assert Encode(f, w[1..]) == Encode(f, w)[|EncodeChar(f, s[0])|..];
      EncodeCancel(f, s[1..], b, w[1..]);
      assert w[|s|..] == w[1..][|s[1..]|..];
      assert s == [s[0]] + s[1..] && w == [w[0]] + w[1..];
    }
  }

  /** How many whole characters of `s` fit into `n` bytes. */
  function Fit(f: Form, s: Text, n: nat): (k: nat)
    ensures k <= |s|
  {
    if s == [] || |EncodeChar(f, s[0])| > n then 0
    else 1 + Fit(f, s[1..], n - |EncodeChar(f, s[0])|)
  }

  /** `Fit` is the largest such number. */
  lemma {:induction false} FitIsMaximal(f: Form, s: Text, n: nat)
    ensures |Encode(f, s[..Fit(f, s, n)])| <= n
    ensures Fit(f, s, n) < |s| ==> |Encode(f, s[..Fit(f, s, n) + 1])| > n
  {
    hide EncodeChar;
    var k := Fit(f, s, n);
    if k == 0 {
      assert s[..0] == [];
      if s != [] {
        assert s[..1] == [s[0]];
        EncodeOne(f, s[0]);
      }
    } else {
      var m := n - |EncodeChar(f, s[0])|;
      FitIsMaximal(f, s[1..], m);
      assert s[..k][1..] == s[1..][..k - 1];
      if k < |s| {
        assert s[..k + 1][1..] == s[1..][..k];
      }
    }
  }

  lemma {:induction false} EncodeMonotone(f: Form, s: Text, i: nat, j: nat)
    requires i <= j <= |s|
    ensures |Encode(f, s[..i])| + (j - i) <= |Encode(f, s[..j])|
    decreases j - i
  {
    if i < j {
      EncodeMonotone(f, s, i, j - 1);
      EncodePush(f, s, j - 1);
    }
  }

  /** Maximality pins `Fit` down. */
  lemma FitUnique(f: Form, s: Text, n: nat, k: nat)
    requires k <= |s| && |Encode(f, s[..k])| <= n
    requires k < |s| ==> |Encode(f, s[..k + 1])| > n
    ensures k == Fit(f, s, n)
  {
    FitIsMaximal(f, s, n);
    var j := Fit(f, s, n);
    if k < j {
      EncodeMonotone(f, s, k + 1, j);
    } else if j < k {
      EncodeMonotone(f, s, j + 1, k);
    }
  }

  lemma {:induction false} FitMonotone(f: Form, s: Text, m: nat, n: nat)
    requires m <= n
    ensures Fit(f, s, m) <= Fit(f, s, n)
  {
    if s != [] && |EncodeChar(f, s[0])| <= m {
      FitMonotone(f, s[1..], m - |EncodeChar(f, s[0])|, n - |EncodeChar(f, s[0])|);
    }
  }

  lemma FitAll(f: Form, s: Text, n: nat)
    requires n >= |Encode(f, s)|
    ensures Fit(f, s, n) == |s|
  {
  }

  lemma EncodeRange(f: Form, s: Text, k: nat, n: nat)
    requires k <= n <= |s|
    ensures Encode(f, s[..n]) == Encode(f, s[..k]) + Encode(f, s[k..][..n - k])
  {
    hide Encode;
    assert s[..n] == s[..k] + s[k..][..n - k];
    EncodeConcat(f, s[..k], s[k..][..n - k]);
  }

  /** Taking characters off the front takes them off `Fit`. */
  lemma FitDrop(f: Form, s: Text, n: nat, k: nat)
    requires k <= Fit(f, s, n)
    ensures |Encode(f, s[..k])| <= n
    ensures Fit(f, s[k..], n - |Encode(f, s[..k])|) == Fit(f, s, n) - k
  {
    hide Encode, Fit;
    var all := Fit(f, s, n);
    FitIsMaximal(f, s, n);
    EncodeRange(f, s, k, all);
    if all < |s| {
      EncodeRange(f, s, k, all + 1);
    }
    FitUnique(f, s[k..], n - |Encode(f, s[..k])|, all - k);
  }

  /** A prefix of encoded text is whole characters followed by a proper part of the next one. */
  lemma PrefixShape(f: Form, s: Text, n: nat)
    requires n <= |Encode(f, s)|
    ensures var k := Fit(f, s, n);
            var m := n - |Encode(f, s[..k])|;
            && 0 <= m
            && (m == 0 || (k < |s| && m < |EncodeChar(f, s[k])|))
            && Encode(f, s)[..n] == Encode(f, s[..k]) + (if m == 0 then [] else EncodeChar(f, s[k])[..m])
  {
    FitIsMaximal(f, s, n);
    var k := Fit(f, s, n);
    EncodeSplit(f, s, k);
    if k < |s| {
      EncodePush(f, s, k);
      EncodeSplit(f, s, k + 1);
    } else {
      assert s[..k] == s;
    }
  }

  // ---- Lengths, and the two forms compared ----

  lemma UnitsOfChar(c: Scalar)
    ensures EncodeUnits(Units(c)) == EncodeChar(CESU8, c)
  {
    hide EncodeUnit;
    var us := Units(c);
    if |us| == 1 {
      assert us[1..] == [];
    } else {
      assert us[1..] == [us[1]] && us[1..][1..] == [];
      assert EncodeUnits(us[1..]) == EncodeUnit(us[1]) + [] == EncodeUnit(us[1]);
    }
  }

  /** CESU-8 is the code-unit-wise encoding of UTF-16. */
  lemma {:induction false} Cesu8IsEncodedUtf16(s: Text)
    ensures Cesu8(s) == EncodeUnits(Utf16(s))
  {
    if s != [] {
      hide EncodeChar, Units;
      Cesu8IsEncodedUtf16(s[1..]);
      EncodeUnitsConcat(Units(s[0]), Utf16(s[1..]));
      UnitsOfChar(s[0]);
    }
  }

  lemma {:induction false} EncodeUnitsConcat(us: seq<CodeUnit>, vs: seq<CodeUnit>)
    ensures EncodeUnits(us + vs) == EncodeUnits(us) + EncodeUnits(vs)
  {
    if us == [] {
      assert us + vs == vs;
    } else {
      assert (us + vs)[1..] == us[1..] + vs;
      EncodeUnitsConcat(us[1..], vs);
    }
  }

  /** Each surrogate pair costs two bytes more in CESU-8 than its four-byte UTF-8 form. */
  lemma {:induction false} Cesu8Length(s: Text)
    ensures |Cesu8(s)| == |Utf8(s)| + 2 * (|Utf16(s)| - |s|)
    ensures |s| <= |Utf16(s)| <= 2 * |s|
    ensures |Utf8(s)| <= |Cesu8(s)| && 2 * |Cesu8(s)| <= 3 * |Utf8(s)|
  {
    if s != [] {
      Cesu8Length(s[1..]);
    }
  }

  /** What the bytes of a code unit look like; exactly the surrogates have 0xED followed by at least 0xA0. */
  lemma UnitShape(u: CodeUnit)
    ensures var b := EncodeUnit(u);
            && (|b| == 1 ==> b[0] < 0x80)
            && (|b| == 2 ==> 0xC2 <= b[0] < 0xE0 && IsContinuation(b[1]))
            && (|b| == 3 ==> 0xE0 <= b[0] < 0xF0 && IsContinuation(b[1]) && IsContinuation(b[2]))
            && (IsHigh(u) <==> |b| == 3 && b[0] == 0xED && 0xA0 <= b[1] < 0xB0)
            && (IsLow(u) <==> |b| == 3 && b[0] == 0xED && 0xB0 <= b[1] < 0xC0)
  {
  }

  /** Where the two forms start alike, the character is inside the basic multilingual plane. */
  lemma CommonHeadIsShort(c: Scalar, x: seq<byte>, d: Scalar, y: seq<byte>)
    requires EncodeChar(CESU8, c) + x == EncodeChar(UTF8, d) + y
    ensures c < 0x1_0000 && d < 0x1_0000
  {
    var p, q := EncodeChar(CESU8, c), EncodeChar(UTF8, d);
    UnitShape(Units(c)[0]);
    assert p[0] == (p + x)[0] == (q + y)[0] == q[0];
    if d < 0x1_0000 {
      UnitShape(d);
      assert |p| >= 3 && |q| == 3 ==> p[1] == (p + x)[1] == (q + y)[1] == q[1];
    }
  }

  /** A byte sequence that is well-formed in both forms denotes the same text in both. */
  lemma {:induction false} CommonEncodingsAgree(s: Text, t: Text)
    requires Cesu8(s) == Utf8(t)
    ensures s == t
  {
    if s == [] || t == [] {
      assert s == t;
    } else {
      var b := Cesu8(s);
      CommonHeadIsShort(s[0], Cesu8(s[1..]), t[0], Utf8(t[1..]));
      DecodeUnitComplete(s[0], Cesu8(s[1..]));
      DecodeUnitComplete(t[0], Utf8(t[1..]));
      assert Cesu8(s[1..]) == b[|EncodeUnit(s[0])|..] == Utf8(t[1..]);
      CommonEncodingsAgree(s[1..], t[1..]);
      assert s == [s[0]] + s[1..] && t == [t[0]] + t[1..];
    }
  }
}
