/** The authentication fields of src/protocol/parts/authfields.rs. */
module AuthFields {
  import opened Wrappers
  import opened Unicode
  import opened Numbers
  import opened LittleEndian
  import opened HdbValue

  /** `AuthField::size`: one byte of length is counted, whatever the length. */
  function FieldSize(field: seq<byte>): nat {
    1 + |field|
  }

  function FieldBytes(field: seq<byte>): Result<seq<byte>> {
    var l := |field|;
    if l <= 250 then Ok([l] + field)
    else if l <= 65_535 then Ok([255] + Digits(l, 2) + field)
    else Err(IoError)
  }

  function ParseField(input: seq<byte>): (r: Result<(seq<byte>, seq<byte>)>)
    ensures input == [] || 251 <= input[0] <= 254 ==> r.Err?
  {
    if input == [] then Err(IoError)
    else
      var len := input[0];
      if len == 255 then
        if |input| < 3 then Err(IoError) else ParseBytes(LeValue(input[1..3]), input[3..])
      else if 251 <= len <= 254 then Err(IoError)
      else ParseBytes(len, input[1..])
  }

  /** The wire form: one byte of length up to 250, else 255 and two bytes. */
  lemma FieldLayout(field: seq<byte>)
    requires |field| <= 65_535
    ensures FieldBytes(field).Ok?
    ensures var b := FieldBytes(field).value;
            if |field| <= 250 then b == [|field|] + field
            else |b| == 3 + |field| && b[0] == 255 && LeValue(b[1..3]) == |field| && b[3..] == field
  {
    hide Digits, LeValue, Pow256;
    if |field| > 250 {
      Pow256Values();
      UnsignedRoundTrip(|field|, 2);
      assert FieldBytes(field).value[1..3] == Digits(|field|, 2);
    }
  }

  /** Fields up to 65535 bytes come back, and nothing behind them is touched; the size is right up to 250 bytes only. */
  lemma FieldRoundTrip(field: seq<byte>, rest: seq<byte>)
    ensures FieldBytes(field).Ok? <==> |field| <= 65_535
    ensures FieldBytes(field).Ok? ==> ParseField(FieldBytes(field).value + rest) == Ok((field, rest))
    ensures FieldBytes(field).Ok? ==> (|FieldBytes(field).value| == FieldSize(field) <==> |field| <= 250)
  {
    hide Digits, LeValue, Pow256;
    var l := |field|;
    ParseBytesExact(field, rest);
    if l <= 250 {
      assert ([l] + field + rest)[1..] == field + rest;
    } else if l <= 65_535 {
      Pow256Values();
      UnsignedRoundTrip(l, 2);
      var input := [255] + Digits(l, 2) + field + rest;
      assert input[1..3] == Digits(l, 2) && input[3..] == field + rest;
    }
  }

  /** All fields, without the count. */
  function FieldsBytes(fields: seq<seq<byte>>): Result<seq<byte>> {
    if fields == [] then Ok([])
    else
      var first := FieldBytes(fields[0]);
      if first.Err? then first
      else
        var others := FieldsBytes(fields[1..]);
        Behind(first.value, others)
  }

  function ParseFields(count: nat, input: seq<byte>): Result<(seq<seq<byte>>, seq<byte>)> {
    if count == 0 then Ok(([], input))
    else
      var first := ParseField(input);
      if first.Err? then Err(first.error)
      else
        AfterFields([first.value.0], ParseFields(count - 1, first.value.1))
  }

  function AfterFields(fields: seq<seq<byte>>, r: Result<(seq<seq<byte>>, seq<byte>)>): Result<(seq<seq<byte>>, seq<byte>)> {
    if r.Err? then r else Ok((fields + r.value.0, r.value.1))
  }

  lemma AfterFieldsTwice(a: seq<seq<byte>>, b: seq<seq<byte>>, r: Result<(seq<seq<byte>>, seq<byte>)>)
    ensures AfterFields(a, AfterFields(b, r)) == AfterFields(a + b, r)
    ensures AfterFields([], r) == r
    ensures r.Err? ==> AfterFields(a, r) == r
    ensures r.Ok? && r.value.0 == [] ==> AfterFields(a, r) == Ok((a, r.value.1))
  {
    if r.Ok? {
      assert a + (b + r.value.0) == (a + b) + r.value.0;
      assert [] + r.value.0 == r.value.0;
      assert a + [] == a;
    }
  }

  function AuthBytes(fields: seq<seq<byte>>): Result<seq<byte>> {
    Behind(Digits(|fields|, 2), FieldsBytes(fields))
  }

  function SizeSpec(fields: seq<seq<byte>>): nat {
    if fields == [] then 0 else FieldSize(fields[0]) + SizeSpec(fields[1..])
  }

  method Emit(fields: seq<seq<byte>>) returns (r: Result<seq<byte>>)
    ensures r == AuthBytes(fields)
  {
    hide FieldBytes, Digits;
    var w := Digits(|fields|, 2);
    for i := 0 to |fields|
      invariant AuthBytes(fields) == Behind(w, FieldsBytes(fields[i..]))
    {
      assert fields[i..][1..] == fields[i + 1..];
      var b := FieldBytes(fields[i]);
      if b.Err? {
        return b;
      }
      BehindBehind(w, b.value, FieldsBytes(fields[i + 1..]));
      w := w + b.value;
    }
    assert w + [] == w;
    return Ok(w);
  }

  /** Appends, unless there was an error. */
  function Behind<T>(a: seq<T>, b: Result<seq<T>>): Result<seq<T>> {
    if b.Err? then b else Ok(a + b.value)
  }

  lemma BehindBehind<T>(a: seq<T>, b: seq<T>, c: Result<seq<T>>)
    ensures Behind(a, Behind(b, c)) == Behind(a + b, c)
  {
    if c.Ok? {
      assert a + (b + c.value) == (a + b) + c.value;
    }
  }

  method Size(fields: seq<seq<byte>>) returns (size: nat)
    ensures size == 2 + SizeSpec(fields)
  {
    size := 2;
    for i := 0 to |fields|
      invariant size + SizeSpec(fields[i..]) == 2 + SizeSpec(fields)
    {
      assert fields[i..][1..] == fields[i + 1..];
      size := size + FieldSize(fields[i]);
    }
  }

  method Parse(input: seq<byte>) returns (r: Result<(seq<seq<byte>>, seq<byte>)>)
    ensures r == if |input| < 2 then Err(IoError) else ParseFields(LeValue(input[..2]), input[2..])
  {
    if |input| < 2 {
      return Err(IoError);
    }
    hide ParseField, LeValue, AfterFields;
    var count, rdr := LeValue(input[..2]), input[2..];
    var fields: seq<seq<byte>> := [];
    AfterFieldsTwice([], [], ParseFields(count, rdr));
    for i := 0 to count
      invariant ParseFields(count, input[2..]) == AfterFields(fields, ParseFields(count - i, rdr))
    {
      var field := ParseField(rdr);
      if field.Err? {
        AfterFieldsTwice(fields, [], Err(field.error));
        return Err(field.error);
      }
      AfterFieldsTwice(fields, [field.value.0], ParseFields(count - i - 1, field.value.1));
      fields, rdr := fields + [field.value.0], field.value.1;
    }
    AfterFieldsTwice(fields, [], Ok(([], rdr)));
    return Ok((fields, rdr));
  }

  lemma {:induction false} FieldsRoundTrip(fields: seq<seq<byte>>, rest: seq<byte>)
    requires FieldsBytes(fields).Ok?
    ensures ParseFields(|fields|, FieldsBytes(fields).value + rest) == Ok((fields, rest))
  {
    if fields != [] {
      hide FieldBytes, ParseField;
      var first, others := FieldBytes(fields[0]).value, FieldsBytes(fields[1..]).value;
      assert FieldsBytes(fields).value + rest == first + (others + rest);
      FieldRoundTrip(fields[0], others + rest);
      FieldsRoundTrip(fields[1..], rest);
      assert fields == [fields[0]] + fields[1..];
    } else {
      assert FieldsBytes(fields).value + rest == rest;
    }
  }

  /** The whole part round-trips, whatever follows it. */
  lemma RoundTrip(fields: seq<seq<byte>>, rest: seq<byte>)
    requires |fields| <= 65_535 && AuthBytes(fields).Ok?
    ensures var input := AuthBytes(fields).value + rest;
            |input| >= 2 && ParseFields(LeValue(input[..2]), input[2..]) == Ok((fields, rest))
  {
    hide FieldsBytes, ParseFields, Digits, LeValue, Pow256;
    var input := AuthBytes(fields).value + rest;
    Pow256Values();
    UnsignedRoundTrip(|fields|, 2);
    assert input[..2] == Digits(|fields|, 2) && input[2..] == FieldsBytes(fields).value + rest;
    FieldsRoundTrip(fields, rest);
  }

  /** The size pass is right exactly if no field is longer than 250 bytes. */
  lemma {:induction false} SizeAgrees(fields: seq<seq<byte>>)
    requires FieldsBytes(fields).Ok?
    ensures SizeSpec(fields) <= |FieldsBytes(fields).value|
    ensures SizeSpec(fields) == |FieldsBytes(fields).value| <==> forall i :: 0 <= i < |fields| ==> |fields[i]| <= 250
  {
    if fields != [] {
      SizeAgrees(fields[1..]);
      assert forall i :: 0 <= i < |fields| ==> fields[i] == if i == 0 then fields[0] else fields[1..][i - 1];
    }
  }

  /** Exactly the fields up to 65535 bytes can be sent. */
  lemma {:induction false} SucceedsIff(fields: seq<seq<byte>>)
    ensures AuthBytes(fields).Ok? <==> forall i :: 0 <= i < |fields| ==> |fields[i]| <= 65_535
    ensures AuthBytes(fields).Ok? <==> FieldsBytes(fields).Ok?
  {
    hide Digits;
    if fields != [] {
      SucceedsIff(fields[1..]);
      assert forall i :: 0 <= i < |fields| ==> fields[i] == if i == 0 then fields[0] else fields[1..][i - 1];
      assert forall i :: 0 <= i < |fields[1..]| ==> fields[1..][i] == fields[i + 1];
    }
  }
}
