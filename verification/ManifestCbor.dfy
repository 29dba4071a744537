/**
 * The closed CBOR subset of the manifest oracle: a canonical encoder and an offset-based
 * decoder. The two are proved inverse to each other in both directions, which makes the
 * encoding injective and prefix-free.
 */
module ManifestCbor {
  import opened Bytes

  // Python values handed to the encoder; Other stands for every type it refuses.
  datatype Value =
    | Bool(flag: bool)
    | Int(number: int)
    | ByteString(bytes: Bytes)
    | List(items: seq<Value>)
    | Other

  datatype CborError =
    | OutsideU64
    | UnsupportedType
    | InvalidLength
    | NonCanonicalLength
    | TruncatedItem
    | UnknownMajorType
    | TruncatedByteString

  datatype Decoded = Decoded(value: Value, end: nat)
  datatype DecodedItems = DecodedItems(items: seq<Value>, end: nat)

  function Head(major: nat, value: int): (r: Result<Bytes, CborError>)
    requires major < 8
    ensures r.Ok? ==> 1 <= |r.value| <= 9
  {
    if !(0 <= value <= U64_MAX) then Err(OutsideU64)
    else if value < 24 then Ok([major * 32 + value])
    else if value <= 0xFF then Ok([major * 32 + 24, value])
    else if value <= 0xFFFF then Ok([major * 32 + 25] + ToBig(value, 2))
    else if value <= U32_MAX then Ok([major * 32 + 26] + ToBig(value, 4))
    else Ok([major * 32 + 27] + ToBig(value, 8))
  }

  function Encode(v: Value): Result<Bytes, CborError>
    decreases v, 1
  {
    match v
    case Bool(flag) => Ok([if flag then 0xF5 else 0xF4])
    case Int(number) => Head(0, number)
    case ByteString(bytes) =>
      var head := Head(2, |bytes|);
      if head.Err? then head else Ok(head.value + bytes)
    case List(items) =>
      var head := Head(4, |items|);
      if head.Err? then head else
        var body := EncodeItems(items);
        if body.Err? then body else Ok(head.value + body.value)
    case Other => Err(UnsupportedType)
  }

  function EncodeItems(items: seq<Value>): Result<Bytes, CborError>
    decreases items, 0
  {
    if items == [] then Ok([])
    else
      var first := Encode(items[0]);
      if first.Err? then first else
        var rest := EncodeItems(items[1..]);
        if rest.Err? then rest else Ok(first.value + rest.value)
  }

  // Bytes that follow the initial byte for an additional-information value; 0 when reserved.
  function Width(additional: nat): nat {
    if additional == 24 then 1
    else if additional == 25 then 2
    else if additional == 26 then 4
    else if additional == 27 then 8
    else 0
  }

  // The least argument that may be written with this many bytes.
  function Minimum(width: nat): nat {
    if width == 1 then 24
    else if width == 2 then 256
    else if width == 4 then 65536
    else 4294967296
  }

  function DecodeLength(data: Bytes, offset: nat, additional: nat): (r: Result<(nat, nat), CborError>)
    requires offset <= |data|
    ensures r.Ok? ==> offset <= r.value.1 <= |data|
  {
    if additional < 24 then Ok((additional, offset))
    else
      var width := Width(additional);
      if width == 0 || offset + width > |data| then Err(InvalidLength)
      else
        var value := FromBig(data[offset..offset + width]);
        if value < Minimum(width) || value > U64_MAX then Err(NonCanonicalLength)
        else Ok((value, offset + width))
  }

  function Decode(data: Bytes, offset: nat): (r: Result<Decoded, CborError>)
    ensures r.Ok? ==> offset < r.value.end <= |data|
    decreases if offset <= |data| then |data| - offset else 0, 0
  {
    if offset >= |data| then Err(TruncatedItem)
    else if data[offset] == 0xF4 then Ok(Decoded(Bool(false), offset + 1))
    else if data[offset] == 0xF5 then Ok(Decoded(Bool(true), offset + 1))
    else
      var major := data[offset] / 32;
      if major != 0 && major != 2 && major != 4 then Err(UnknownMajorType)
      else
        var length := DecodeLength(data, offset + 1, data[offset] % 32);
        if length.Err? then Err(length.error)
        else
          var (value, start) := length.value;
          if major == 0 then Ok(Decoded(Int(value), start))
          else if major == 2 then
            if start + value > |data| then Err(TruncatedByteString)
            else Ok(Decoded(ByteString(data[start..start + value]), start + value))
          else
            var items := DecodeItems(data, start, value);
            if items.Err? then Err(items.error)
            else Ok(Decoded(List(items.value.items), items.value.end))
  }

  function DecodeItems(data: Bytes, offset: nat, count: nat): (r: Result<DecodedItems, CborError>)
    ensures r.Ok? ==> offset <= r.value.end && |r.value.items| == count
    ensures r.Ok? && offset <= |data| ==> r.value.end <= |data|
    decreases if offset <= |data| then |data| - offset else 0, count
  {
    if count == 0 then Ok(DecodedItems([], offset))
    else
      var first := Decode(data, offset);
      if first.Err? then Err(first.error)
      else
        var rest := DecodeItems(data, first.value.end, count - 1);
        if rest.Err? then Err(rest.error)
        else Ok(DecodedItems([first.value.value] + rest.value.items, rest.value.end))
  }

  // bytes stands in data at offset
  predicate At(data: Bytes, offset: nat, bytes: Bytes) {
    offset + |bytes| <= |data| && data[offset..offset + |bytes|] == bytes
  }

  lemma AtConcat(data: Bytes, offset: nat, a: Bytes, b: Bytes)
    ensures At(data, offset, a + b) <==> At(data, offset, a) && At(data, offset + |a|, b)
  {
    if offset + |a| + |b| <= |data| {
      var whole := data[offset..offset + |a + b|];
      assert whole[..|a|] == data[offset..offset + |a|];
      assert whole[|a|..] == data[offset + |a|..offset + |a| + |b|];
      assert (a + b)[..|a|] == a && (a + b)[|a|..] == b;
      assert whole == whole[..|a|] + whole[|a|..];
    }
  }

  // A head is the major type, then the argument in the shortest of the five forms.
  lemma HeadIsShortest(major: nat, value: int)
    requires major < 8 && 0 <= value <= U64_MAX
    ensures var head := Head(major, value);
            head.Ok? && head.value[0] / 32 == major
            && (|head.value| == 1 <==> value < 24)
            && (|head.value| == 1 ==> head.value[0] % 32 == value)
            && (|head.value| > 1 ==>
                  |head.value| - 1 == Width(head.value[0] % 32) && FromBig(head.value[1..]) == value
                  && value >= Minimum(|head.value| - 1))
  {
    Pow256Values();
    var head := Head(major, value).value;
    if value >= 24 {
      var width := |head| - 1;
      if value <= 0xFF {
        assert [value] == ToBig(value, 1);
      }
      assert head[1..] == ToBig(value, width);
      BigRoundTrip(value, width);
    }
  }

  lemma HeadDecodes(data: Bytes, offset: nat, major: nat, value: int)
    requires major < 8 && Head(major, value).Ok?
    requires At(data, offset, Head(major, value).value)
    ensures offset < |data| && data[offset] / 32 == major
    ensures DecodeLength(data, offset + 1, data[offset] % 32)
         == Ok((value, offset + |Head(major, value).value|))
  {
    HeadIsShortest(major, value);
    var head := Head(major, value).value;
    assert head == [head[0]] + head[1..];
    AtConcat(data, offset, [head[0]], head[1..]);
    assert data[offset] == data[offset..offset + 1][0];
  }

  lemma LengthIsCanonical(data: Bytes, offset: nat, major: nat)
    requires offset < |data| && major == data[offset] / 32 && major < 8
    requires DecodeLength(data, offset + 1, data[offset] % 32).Ok?
    ensures var (value, end) := DecodeLength(data, offset + 1, data[offset] % 32).value;
            Head(major, value) == Ok(data[offset..end])
  {
    hide ToBig, FromBig;
    var additional := data[offset] % 32;
    var (value, end) := DecodeLength(data, offset + 1, additional).value;
    if additional < 24 {
      assert data[offset..end] == [major * 32 + value];
    } else {
      Pow256Values();
      var argument := data[offset + 1..end];
      BigOfBytes(argument);
      assert |argument| == Width(additional) && value == FromBig(argument);
      assert data[offset..end] == [major * 32 + additional] + argument;
      if additional == 24 {
        SingleByte(argument);
        assert data[offset..end] == [major * 32 + 24, value];
      } else {
        assert argument == ToBig(value, |argument|);
      }
    }
  }

  lemma SingleByte(s: Bytes)
    requires |s| == 1
    ensures s == [FromBig(s)]
  {
  }

  // Decoding an encoding, wherever it stands and whatever follows, returns the value and its end.
  lemma {:induction false} DecodeEncode(v: Value, data: Bytes, offset: nat)
    requires Encode(v).Ok? && At(data, offset, Encode(v).value)
    ensures Decode(data, offset) == Ok(Decoded(v, offset + |Encode(v).value|))
    decreases v, 1
  {
    hide Head, DecodeLength;
    match v
    case Bool(flag) =>
      assert data[offset] == data[offset..offset + 1][0];
    case Int(number) =>
      HeadDecodes(data, offset, 0, number);
    case ByteString(bytes) =>
      var head := Head(2, |bytes|).value;
      AtConcat(data, offset, head, bytes);
      HeadDecodes(data, offset, 2, |bytes|);
    case List(items) =>
      var head := Head(4, |items|).value;
      AtConcat(data, offset, head, EncodeItems(items).value);
      HeadDecodes(data, offset, 4, |items|);
      DecodeEncodeItems(items, data, offset + |head|);
    case Other =>
  }

  lemma {:induction false} DecodeEncodeItems(items: seq<Value>, data: Bytes, offset: nat)
    requires EncodeItems(items).Ok? && At(data, offset, EncodeItems(items).value)
    ensures DecodeItems(data, offset, |items|)
         == Ok(DecodedItems(items, offset + |EncodeItems(items).value|))
    decreases items, 0
  {
    if items != [] {
      var first := Encode(items[0]).value;
      AtConcat(data, offset, first, EncodeItems(items[1..]).value);
      DecodeEncode(items[0], data, offset);
      DecodeEncodeItems(items[1..], data, offset + |first|);
      assert items == [items[0]] + items[1..];
    }
  }

  // Whatever decodes was canonical: re-encoding gives exactly the bytes consumed.
  lemma {:induction false} EncodeDecode(data: Bytes, offset: nat)
    requires Decode(data, offset).Ok?
    ensures var d := Decode(data, offset).value;
            Encode(d.value) == Ok(data[offset..d.end])
    decreases if offset <= |data| then |data| - offset else 0, 0
  {
    var d := Decode(data, offset).value;
    if data[offset] == 0xF4 || data[offset] == 0xF5 {
      assert data[offset..offset + 1] == [data[offset]];
    } else {
      var major := data[offset] / 32;
      LengthIsCanonical(data, offset, major);
      var (value, start) := DecodeLength(data, offset + 1, data[offset] % 32).value;
      assert data[offset..d.end] == data[offset..start] + data[start..d.end];
      if major == 4 {
        EncodeDecodeItems(data, start, value);
      }
    }
  }

  lemma {:induction false} EncodeDecodeItems(data: Bytes, offset: nat, count: nat)
    requires offset <= |data| && DecodeItems(data, offset, count).Ok?
    ensures var d := DecodeItems(data, offset, count).value;
            EncodeItems(d.items) == Ok(data[offset..d.end])
    decreases if offset <= |data| then |data| - offset else 0, count
  {
    if count == 0 {
      assert data[offset..offset] == [];
    } else {
      var first := Decode(data, offset).value;
      var d := DecodeItems(data, offset, count).value;
      EncodeDecode(data, offset);
      EncodeDecodeItems(data, first.end, count - 1);
      assert d.items[1..] == DecodeItems(data, first.end, count - 1).value.items;
      assert data[offset..d.end] == data[offset..first.end] + data[first.end..d.end];
    }
  }

  // The decoder accepts at an offset exactly when some value's encoding stands there.
  lemma AcceptsExactlyEncodings(data: Bytes, offset: nat, v: Value, end: nat)
    ensures Decode(data, offset) == Ok(Decoded(v, end))
       <==> offset <= end <= |data| && Encode(v) == Ok(data[offset..end])
  {
    if Decode(data, offset) == Ok(Decoded(v, end)) {
      EncodeDecode(data, offset);
    }
    if offset <= end <= |data| && Encode(v) == Ok(data[offset..end]) {
      DecodeEncode(v, data, offset);
    }
  }

  // No encoding is a proper prefix of another; equal encodings come from equal values.
  lemma PrefixFree(v: Value, w: Value, rest: Bytes)
    requires Encode(v).Ok? && Encode(w).Ok? && Encode(v).value + rest == Encode(w).value
    ensures v == w && rest == []
  {
    var data := Encode(w).value;
    assert data[0..|data|] == data;
    assert data[0..|Encode(v).value|] == Encode(v).value;
    DecodeEncode(w, data, 0);
    DecodeEncode(v, data, 0);
  }

  lemma EncodeInjective(v: Value, w: Value)
    requires Encode(v).Ok? && Encode(v) == Encode(w)
    ensures v == w
  {
    assert Encode(v).value + [] == Encode(w).value;
    PrefixFree(v, w, []);
  }

  // The decoder as written: recursion over items, a loop that appends them to a list.
  method DecodeCbor(data: Bytes, offset: nat) returns (r: Result<Decoded, CborError>)
    ensures r == Decode(data, offset)
    decreases if offset <= |data| then |data| - offset else 0
  {
    hide DecodeLength;
    if offset >= |data| { return Err(TruncatedItem); }
    var initial := data[offset];
    var position := offset + 1;
    if initial == 0xF4 { return Ok(Decoded(Bool(false), position)); }
    if initial == 0xF5 { return Ok(Decoded(Bool(true), position)); }
    var major := initial / 32;
    if major != 0 && major != 2 && major != 4 { return Err(UnknownMajorType); }
    var length := DecodeLength(data, position, initial % 32);
    if length.Err? { return Err(length.error); }
    var value := length.value.0;
    position := length.value.1;
    if major == 0 { return Ok(Decoded(Int(value), position)); }
    if major == 2 {
      var end := position + value;
      if end > |data| { return Err(TruncatedByteString); }
      return Ok(Decoded(ByteString(data[position..end]), end));
    }
    ghost var whole := DecodeItems(data, position, value);
    var items: seq<Value> := [];
    var index := 0;
    assert whole.Ok? ==> [] + whole.value.items == whole.value.items;
    while index < value
      invariant 0 <= index <= value && |items| == index
      invariant offset < position <= |data|
      invariant var rest := DecodeItems(data, position, value - index);
                if rest.Err? then whole == Err(rest.error)
                else whole == Ok(DecodedItems(items + rest.value.items, rest.value.end))
    {
      ghost var rest := DecodeItems(data, position, value - index);
      ghost var before := items;
      var item := DecodeCbor(data, position);
      if item.Err? { return Err(item.error); }
      items := items + [item.value.value];
      position := item.value.end;
      index := index + 1;
      ghost var tail := DecodeItems(data, position, value - index);
      if tail.Ok? {
        assert before + ([item.value.value] + tail.value.items) == items + tail.value.items;
      }
    }
    assert items + [] == items;
    return Ok(Decoded(List(items), position));
  }
}
