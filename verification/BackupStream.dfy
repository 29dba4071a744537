/**
 * The backup stream of the two C programs: bounded buffer appends, the generator that writes
 * frames and the independent checker that accepts or refuses them. The authenticated stream
 * cipher and the deterministic padding generator are parameters.
 */
module BackupStream {
  import opened Bytes
  import ManifestCbor

  const CHUNK: int := 4194304
  const OVERHEAD: int := 17
  const MAX_FILE: int := CHUNK + OVERHEAD
  const AAD_MAX: int := 96
  const FINAL_MAX: int := 128

  /* ---------- appending to a bounded buffer ---------- */

  // A buffer with bytes put in at an offset.
  function Written(buffer: Bytes, offset: nat, bytes: Bytes): (r: Bytes)
    requires offset + |bytes| <= |buffer|
    ensures |r| == |buffer|
  {
    buffer[..offset] + bytes + buffer[offset + |bytes|..]
  }

  lemma WriteNext(buffer: Bytes, offset: nat, bytes: Bytes, b: byte)
    requires offset + |bytes| < |buffer|
    ensures Written(buffer, offset, bytes)[offset + |bytes| := b] == Written(buffer, offset, bytes + [b])
  {
  }

  lemma WriteNothing(buffer: Bytes, offset: nat)
    requires offset <= |buffer|
    ensures Written(buffer, offset, []) == buffer
  {
  }

  method AppendByte(output: array<byte>, capacity: nat, offset: nat, value: byte) returns (code: int, next: nat)
    requires offset <= capacity <= output.Length
    modifies output
    ensures code == (if offset < capacity then 0 else -1)
    ensures code == 0 ==> next == offset + 1 && output[..] == old(output[..])[offset := value]
    ensures code == 0 ==> output[..next] == old(output[..offset]) + [value]
    ensures code != 0 ==> next == offset && output[..] == old(output[..])
  {
    if offset >= capacity { return -1, offset; }
    output[offset] := value;
    return 0, offset + 1;
  }

  method AppendBytes(output: array<byte>, capacity: nat, offset: nat, value: Bytes) returns (code: int, next: nat)
    requires offset <= capacity <= output.Length
    modifies output
    ensures code == (if |value| <= capacity - offset then 0 else -1)
    ensures code == 0 ==> next == offset + |value| && output[..] == Written(old(output[..]), offset, value)
    ensures code == 0 ==> output[..next] == old(output[..offset]) + value
    ensures code != 0 ==> next == offset && output[..] == old(output[..])
  {
    if |value| > capacity - offset { return -1, offset; }
    forall i | 0 <= i < |value| {
      output[offset + i] := value[i];
    }
    return 0, offset + |value|;
  }

  // (unsigned char) (value >> shift), with place = 2^shift
  function Octet(value: nat, place: nat): byte
    requires place > 0
  {
    value / place % 0x100
  }

  // An unsigned integer in the shortest of the four forms these programs write.
  function UintBytes(value: nat): Bytes
    requires value <= U32_MAX
  {
    if value < 24 then [value]
    else if value <= 0xFF then [0x18, value]
    else if value <= 0xFFFF then [0x19, Octet(value, 0x100), Octet(value, 1)]
    else [0x1A, Octet(value, 0x100_0000), Octet(value, 0x1_0000), Octet(value, 0x100), Octet(value, 1)]
  }

  // append_byte(b0) || append_byte(b1) || ...: stops at the first that does not fit, with code 1.
  method AppendEach(output: array<byte>, capacity: nat, offset: nat, bytes: Bytes) returns (code: int, next: nat)
    requires offset <= capacity <= output.Length
    modifies output
    ensures code == (if offset + |bytes| <= capacity then 0 else 1)
    ensures next == if code == 0 then offset + |bytes| else capacity
    ensures output[..] == Written(old(output[..]), offset, bytes[..next - offset])
    decreases |bytes|
  {
    hide Written;
    ghost var before := output[..];
    WriteNothing(before, offset);
    if bytes == [] { return 0, offset; }
    code, next := AppendByte(output, capacity, offset, bytes[0]);
    if code != 0 { return 1, next; }
    ghost var middle := output[..];
    code, next := AppendEach(output, capacity, next, bytes[1..]);
    WriteThenWrite(before, offset, bytes, next - offset);
  }

  lemma WriteThenWrite(buffer: Bytes, offset: nat, bytes: Bytes, n: nat)
    requires 0 < n <= |bytes| && offset + n <= |buffer|
    ensures Written(buffer[offset := bytes[0]], offset + 1, bytes[1..][..n - 1]) == Written(buffer, offset, bytes[..n])
  {
    assert bytes[..n] == [bytes[0]] + bytes[1..][..n - 1];
  }

  // Only values up to 2^32 - 1 are written. A failed append may leave part of the encoding
  // behind; nothing is ever written before the offset or at or past the capacity.
  method AppendUint(output: array<byte>, capacity: nat, offset: nat, value: nat) returns (code: int, next: nat)
    requires offset <= capacity <= output.Length && value <= U64_MAX
    modifies output
    ensures code == 0 <==> value <= U32_MAX && offset + |UintBytes(value)| <= capacity
    ensures code == 0 ==> next == offset + |UintBytes(value)|
    ensures code == 0 ==> output[..next] == old(output[..offset]) + UintBytes(value)
    ensures offset <= next <= capacity
    ensures if value <= U32_MAX then next <= offset + |UintBytes(value)| else next == offset
    ensures output[..] ==
            Written(old(output[..]), offset, if value <= U32_MAX then UintBytes(value)[..next - offset] else [])
  {
    ghost var before := output[..];
    WriteNothing(before, offset);
    hide Written, UintBytes;
    if value < 24 {
      OneByteForm(value);
      code, next := AppendByte(output, capacity, offset, value);
      if code == 0 { WriteNext(before, offset, [], value); }
      assert [] + [value] == [value] && [value][..1] == [value];
      return;
    }
    if value > U32_MAX { return -1, offset; }
    code, next := AppendEach(output, capacity, offset, UintBytes(value));
    if code == 0 { WrittenPrefix(before, offset, UintBytes(value)); }
  }

  lemma OneByteForm(value: nat)
    requires value < 24
    ensures UintBytes(value) == [value]
  {
  }

  lemma WrittenPrefix(buffer: Bytes, offset: nat, bytes: Bytes)
    requires offset + |bytes| <= |buffer|
    ensures Written(buffer, offset, bytes[..|bytes|])[..offset + |bytes|] == buffer[..offset] + bytes
  {
    assert bytes[..|bytes|] == bytes;
  }

  /* ---------- associated data and footer ---------- */

  type Hash32 = h: Bytes | |h| == 32 witness seq(32, i => 0)

  const FRAME_DOMAIN: Bytes := Ascii("pm-v1/backup-frame")
  const MESSAGE_KIND: nat := 1
  const FINAL_KIND: nat := 2

  predicate InU32(value: nat) {
    value <= U32_MAX
  }

  // The buffer holds `bytes`, and after them what it held before.
  predicate Onto(buffer: Bytes, before: Bytes, bytes: Bytes) {
    |buffer| == |before| && |bytes| <= |before| && buffer == bytes + before[|bytes|..]
  }

  lemma ByteOnto(buffer: Bytes, before: Bytes, bytes: Bytes, b: byte)
    requires Onto(buffer, before, bytes) && |bytes| < |buffer|
    ensures Onto(buffer[|bytes| := b], before, bytes + [b])
  {
  }

  lemma BytesOnto(buffer: Bytes, before: Bytes, bytes: Bytes, more: Bytes)
    requires Onto(buffer, before, bytes) && |bytes| + |more| <= |buffer|
    ensures Onto(Written(buffer, |bytes|, more), before, bytes + more)
  {
  }

  lemma StaysOnto(buffer: Bytes, before: Bytes, bytes: Bytes)
    requires Onto(buffer, before, bytes)
    ensures Written(buffer, |bytes|, []) == buffer && buffer[..|bytes|] == bytes
  {
  }

  // Unsigned integers up to the first that does not fit 32 bits.
  function UintsBytes(values: seq<nat>): (r: Bytes)
    ensures |r| <= 5 * |values|
  {
    if values == [] || !InU32(values[0]) then []
    else
      UintLength(values[0]);
      UintBytes(values[0]) + UintsBytes(values[1..])
  }

  function AadHead(headerHash: Hash32): (r: Bytes)
    ensures |r| == 54
  {
    FRAME_DOMAIN + [0] + [0x84] + [0x58] + [0x20] + headerHash
  }

  // What build_aad writes.
  function AadBytes(headerHash: Hash32, index: nat, kind: nat, count: nat): (r: Bytes)
    requires InU32(index) && InU32(kind) && InU32(count)
    ensures 1 <= |r| <= AAD_MAX
  {
    FRAME_DOMAIN + [0] + [0x84] + [0x58] + [0x20] + headerHash
      + UintBytes(index) + UintBytes(kind) + UintBytes(count)
  }

  // One more integer in the buffer, or nothing where it does not fit 32 bits.
  lemma UintOnto(buffer: Bytes, after: Bytes, before: Bytes, bytes: Bytes, value: nat, next: nat)
    requires Onto(buffer, before, bytes) && |bytes| <= next <= |buffer|
    requires if InU32(value)
             then next == |bytes| + |UintBytes(value)|
                  && after == Written(buffer, |bytes|, UintBytes(value)[..next - |bytes|])
             else after == Written(buffer, |bytes|, [])
    ensures Onto(after, before, bytes + UintsBytes([value]))
    ensures InU32(value) ==> bytes + UintsBytes([value]) == bytes + UintBytes(value)
  {
    OneUint(value);
    hide Written, UintBytes, UintsBytes, Onto;
    if InU32(value) {
      assert UintBytes(value)[..next - |bytes|] == UintBytes(value);
      BytesOnto(buffer, before, bytes, UintBytes(value));
    } else {
      StaysOnto(buffer, before, bytes);
      assert bytes + [] == bytes;
    }
  }

  lemma OneUint(value: nat)
    ensures UintsBytes([value]) == if InU32(value) then UintBytes(value) else []
  {
    assert [value][1..] == [];
    hide UintBytes;
  }

  lemma FirstUint(value: nat, values: seq<nat>)
    ensures UintsBytes([value] + values) == if InU32(value) then UintBytes(value) + UintsBytes(values) else []
  {
    assert ([value] + values)[1..] == values;
    hide UintBytes;
  }

  lemma ThreeUints(head: Bytes, i: nat, k: nat, c: nat)
    ensures !InU32(i) ==> head + UintsBytes([i, k, c]) == head + UintsBytes([i])
    ensures InU32(i) && !InU32(k) ==> head + UintsBytes([i, k, c]) == head + UintBytes(i) + UintsBytes([k])
    ensures InU32(i) && InU32(k) ==>
            head + UintsBytes([i, k, c]) == head + UintBytes(i) + UintBytes(k) + UintsBytes([c])
    ensures InU32(i) && InU32(k) && InU32(c) ==>
              head + UintsBytes([i, k, c]) == head + UintBytes(i) + UintBytes(k) + UintBytes(c)
  {
    assert [i, k, c] == [i] + [k, c] && [k, c] == [k] + [c];
    FirstUint(i, [k, c]);
    FirstUint(k, [c]);
    OneUint(i);
    OneUint(k);
    OneUint(c);
    hide UintBytes, UintsBytes;
  }

  // append_uint(i) || append_uint(k) || append_uint(c), in a buffer with room for all three.
  method AppendUints(output: array<byte>, capacity: nat, offset: nat, i: nat, k: nat, c: nat,
                     ghost before: Bytes, ghost head: Bytes)
      returns (code: int, next: nat)
    requires i <= U64_MAX && k <= U64_MAX && c <= U64_MAX
    requires offset == |head| && offset + 15 <= capacity <= output.Length && Onto(output[..], before, head)
    modifies output
    ensures code == 0 <==> InU32(i) && InU32(k) && InU32(c)
    ensures next <= capacity && Onto(output[..], before, head + UintsBytes([i, k, c]))
    ensures code == 0 ==> head + UintsBytes([i, k, c]) == head + UintBytes(i) + UintBytes(k) + UintBytes(c)
    ensures code == 0 ==> next == |head + UintsBytes([i, k, c])| <= offset + 15
  {
    hide Written, UintBytes, UintsBytes, Onto;
    ghost var bytes := head;
    ThreeUints(head, i, k, c);
    UintLength(i);
    UintLength(k);
    UintLength(c);
    ghost var buffer := output[..];
    code, next := AppendUint(output, capacity, offset, i);
    UintOnto(buffer, output[..], before, bytes, i, next);
    if code != 0 { return; }
    bytes := bytes + UintBytes(i);
    buffer := output[..];
    code, next := AppendUint(output, capacity, next, k);
    UintOnto(buffer, output[..], before, bytes, k, next);
    if code != 0 { return; }
    bytes := bytes + UintBytes(k);
    buffer := output[..];
    code, next := AppendUint(output, capacity, next, c);
    UintOnto(buffer, output[..], before, bytes, c, next);
  }

  // Whatever the arguments, the buffer ends up holding the head and the integers up to the first that
  // does not fit 32 bits; with none such, that is the associated data.
  method BuildAad(headerHash: Hash32, index: nat, kind: nat, count: nat, output: array<byte>)
      returns (code: int, length: nat)
    requires index <= U64_MAX && kind <= U64_MAX && count <= U64_MAX && output.Length == AAD_MAX
    modifies output
    ensures code == (if InU32(index) && InU32(kind) && InU32(count) then 0 else -1)
    ensures code == 0 ==> length <= AAD_MAX && output[..length] == AadBytes(headerHash, index, kind, count)
    ensures Onto(output[..], old(output[..]), AadHead(headerHash) + UintsBytes([index, kind, count]))
  {
    hide Written, UintBytes, UintsBytes, Onto;
    length := 0;
    ghost var before := output[..];
    var offset: nat;
    code, offset := AppendAadHead(headerHash, output);
    code, offset := AppendUints(output, AAD_MAX, offset, index, kind, count, before, AadHead(headerHash));
    if code != 0 { code := -1; return; }
    length := offset;
    OntoPrefix(output[..], before, AadHead(headerHash) + UintsBytes([index, kind, count]));
  }

  lemma OntoPrefix(buffer: Bytes, before: Bytes, bytes: Bytes)
    requires Onto(buffer, before, bytes)
    ensures |bytes| <= |buffer| && buffer[..|bytes|] == bytes
  {
  }

  // The part of the associated data that always fits.
  method AppendAadHead(headerHash: Hash32, output: array<byte>) returns (code: int, offset: nat)
    requires output.Length == AAD_MAX
    modifies output
    ensures code == 0 && offset == 54 && Onto(output[..], old(output[..]), AadHead(headerHash))
  {
    hide Written, Onto;
    ghost var before := output[..];
    OntoNothing(before);
    BytesOnto(output[..], before, [], FRAME_DOMAIN);
    code, offset := AppendBytes(output, AAD_MAX, 0, FRAME_DOMAIN);
    ByteOnto(output[..], before, [] + FRAME_DOMAIN, 0);
    code, offset := AppendByte(output, AAD_MAX, offset, 0);
    ByteOnto(output[..], before, [] + FRAME_DOMAIN + [0], 0x84);
    code, offset := AppendByte(output, AAD_MAX, offset, 0x84);
    ByteOnto(output[..], before, [] + FRAME_DOMAIN + [0] + [0x84], 0x58);
    code, offset := AppendByte(output, AAD_MAX, offset, 0x58);
    ByteOnto(output[..], before, [] + FRAME_DOMAIN + [0] + [0x84] + [0x58], 0x20);
    code, offset := AppendByte(output, AAD_MAX, offset, 0x20);
    BytesOnto(output[..], before, [] + FRAME_DOMAIN + [0] + [0x84] + [0x58] + [0x20], headerHash);
    code, offset := AppendBytes(output, AAD_MAX, offset, headerHash);
    assert [] + FRAME_DOMAIN == FRAME_DOMAIN;
  }

  lemma OntoNothing(buffer: Bytes)
    ensures Onto(buffer, buffer, [])
  {
  }

  lemma UintLength(value: nat)
    ensures value <= U32_MAX ==> 1 <= |UintBytes(value)| <= 5
  {
  }

  // What build_final_plaintext writes.
  function FooterBytes(headerHash: Hash32, count: nat, size: nat, logicalHash: Hash32): (r: Bytes)
    requires InU32(count) && InU32(size) && InU32(count * CHUNK)
    ensures 1 <= |r| <= FINAL_MAX
  {
    [0x85] + [0x58] + [0x20] + headerHash + UintBytes(count) + UintBytes(size) + UintBytes(count * CHUNK)
      + [0x58] + [0x20] + logicalHash
  }

  predicate FooterFits(count: nat, size: nat) {
    count <= 1023 && size <= U32_MAX
  }

  function FooterHead(headerHash: Hash32): (r: Bytes)
    ensures |r| == 35
  {
    [0x85] + [0x58] + [0x20] + headerHash
  }

  function FooterTail(logicalHash: Hash32): (r: Bytes)
    ensures |r| == 34
  {
    [0x58] + [0x20] + logicalHash
  }

  function Padded(count: nat): nat {
    (count * CHUNK) % (U64_MAX + 1)
  }

  // What the buffer holds afterwards: the tail only where all three integers fit 32 bits.
  function FooterWritten(headerHash: Hash32, count: nat, size: nat, logicalHash: Hash32): (r: Bytes)
    ensures |r| <= 84
  {
    FooterHead(headerHash) + UintsBytes([count, size, Padded(count)])
      + if FooterFits(count, size) then FooterTail(logicalHash) else []
  }

  // The product is taken modulo 2^64, as the code does.
  method BuildFinalPlaintext(headerHash: Hash32, count: nat, size: nat, logicalHash: Hash32, output: array<byte>)
      returns (code: int, length: nat)
    requires count <= U64_MAX && size <= U64_MAX && output.Length == FINAL_MAX
    modifies output
    ensures code == (if FooterFits(count, size) then 0 else -1)
    ensures code == 0 ==> InU32(count * CHUNK) && length <= FINAL_MAX
    ensures code == 0 ==> output[..length] == FooterBytes(headerHash, count, size, logicalHash)
    ensures Onto(output[..], old(output[..]), FooterWritten(headerHash, count, size, logicalHash))
  {
    hide Written, UintBytes, UintsBytes, Onto;
    length := 0;
    ghost var before := output[..];
    var offset: nat;
    PaddedLengthFits(count, size);
    code, offset := AppendFooterHead(headerHash, output);
    code, offset := AppendUints(output, FINAL_MAX, offset, count, size, (count * CHUNK) % (U64_MAX + 1),
                                before, FooterHead(headerHash));
    ghost var bytes := FooterHead(headerHash) + UintsBytes([count, size, Padded(count)]);
    assert bytes + [] == bytes;
    if code != 0 { code := -1; return; }
    code, offset := AppendFooterTail(logicalHash, output, offset, before, bytes);
    length := offset;
    OntoPrefix(output[..], before, bytes + FooterTail(logicalHash));
  }

  method AppendFooterHead(headerHash: Hash32, output: array<byte>) returns (code: int, offset: nat)
    requires output.Length == FINAL_MAX
    modifies output
    ensures code == 0 && offset == 35 && Onto(output[..], old(output[..]), FooterHead(headerHash))
  {
    hide Written, Onto;
    ghost var before := output[..];
    OntoNothing(before);
    ByteOnto(output[..], before, [], 0x85);
    code, offset := AppendByte(output, FINAL_MAX, 0, 0x85);
    ByteOnto(output[..], before, [] + [0x85], 0x58);
    code, offset := AppendByte(output, FINAL_MAX, offset, 0x58);
    ByteOnto(output[..], before, [] + [0x85] + [0x58], 0x20);
    code, offset := AppendByte(output, FINAL_MAX, offset, 0x20);
    BytesOnto(output[..], before, [] + [0x85] + [0x58] + [0x20], headerHash);
    code, offset := AppendBytes(output, FINAL_MAX, offset, headerHash);
    assert [] + [0x85] == [0x85];
  }

  method AppendFooterTail(logicalHash: Hash32, output: array<byte>, offset: nat,
         ghost before: Bytes, ghost bytes: Bytes)
      returns (code: int, next: nat)
    requires offset == |bytes| <= 50 && output.Length == FINAL_MAX && Onto(output[..], before, bytes)
    modifies output
    ensures code == 0 && next == offset + 34 && Onto(output[..], before, bytes + FooterTail(logicalHash))
  {
    hide Written, Onto;
    ByteOnto(output[..], before, bytes, 0x58);
    code, next := AppendByte(output, FINAL_MAX, offset, 0x58);
    ByteOnto(output[..], before, bytes + [0x58], 0x20);
    code, next := AppendByte(output, FINAL_MAX, next, 0x20);
    BytesOnto(output[..], before, bytes + [0x58] + [0x20], logicalHash);
    code, next := AppendBytes(output, FINAL_MAX, next, logicalHash);
    assert bytes + FooterTail(logicalHash) == bytes + [0x58] + [0x20] + logicalHash;
  }

  // The padded length is written exactly up to 1023 chunks.
  lemma PaddedLengthFits(count: nat, size: nat)
    requires count <= U64_MAX
    ensures FooterFits(count, size)
       <==> InU32(count) && InU32(size) && InU32((count * CHUNK) % (U64_MAX + 1))
    ensures InU32(count) ==> (count * CHUNK) % (U64_MAX + 1) == count * CHUNK
  {
  }

  /* ---------- what those bytes mean ---------- */

  lemma UintIsHead(value: nat)
    requires InU32(value)
    ensures ManifestCbor.Head(0, value) == Ok(UintBytes(value))
  {
    if 24 <= value {
      if value <= 0xFF {
      } else if value <= 0xFFFF {
        TwoOctets(value);
        assert [0x19] + ToBig(value, 2) == UintBytes(value);
      } else {
        FourOctets(value);
        assert [0x1A] + ToBig(value, 4) == UintBytes(value);
      }
    }
  }

  lemma TwoOctets(value: nat)
    requires value <= 0xFFFF
    ensures ToBig(value, 2) == [Octet(value, 0x100), Octet(value, 1)]
  {
    assert ToBig(value, 2) == ToBig(value / 256, 1) + [value % 256];
    assert ToBig(value / 256, 1) == [] + [value / 256 % 256];
  }

  lemma FourOctets(value: nat)
    requires value <= U32_MAX
    ensures ToBig(value, 4) == [Octet(value, 0x100_0000), Octet(value, 0x1_0000), Octet(value, 0x100), Octet(value, 1)]
  {
    var top := value / 0x1_0000;
    TwoOctets(top);
    assert top == value / 256 / 256;
    assert Octet(top, 0x100) == Octet(value, 0x100_0000) && Octet(top, 1) == Octet(value, 0x1_0000);
    assert ToBig(value / 256, 3) == ToBig(value / 256 / 256, 2) + [value / 256 % 256];
    assert ToBig(value, 4) == ToBig(value / 256, 3) + [value % 256];
  }

  // Every unsigned integer these programs write is read back by the canonical decoder.
  lemma UintDecodes(value: nat, rest: Bytes)
    requires InU32(value)
    ensures ManifestCbor.Decode(UintBytes(value) + rest, 0)
         == Ok(ManifestCbor.Decoded(ManifestCbor.Int(value), |UintBytes(value)|))
  {
    hide UintBytes;
    UintIsHead(value);
    var data := UintBytes(value) + rest;
    assert data[0..|UintBytes(value)|] == UintBytes(value);
    ManifestCbor.DecodeEncode(ManifestCbor.Int(value), data, 0);
  }

  function AadBody(headerHash: Hash32, index: nat, kind: nat, count: nat): ManifestCbor.Value {
    ManifestCbor.List([ManifestCbor.ByteString(headerHash), ManifestCbor.Int(index),
                       ManifestCbor.Int(kind), ManifestCbor.Int(count)])
  }

  function FooterBody(headerHash: Hash32, count: nat, size: nat, logicalHash: Hash32): ManifestCbor.Value {
    ManifestCbor.List([ManifestCbor.ByteString(headerHash), ManifestCbor.Int(count), ManifestCbor.Int(size),
                       ManifestCbor.Int(count * CHUNK), ManifestCbor.ByteString(logicalHash)])
  }

  lemma HashEncodes(h: Hash32)
    ensures ManifestCbor.Encode(ManifestCbor.ByteString(h)) == Ok([0x58] + [0x20] + h)
  {
    assert ManifestCbor.Head(2, 32) == Ok([0x58, 0x20]);
    assert [0x58] + [0x20] == [0x58, 0x20];
  }

  lemma EncodesNext(item: ManifestCbor.Value, items: seq<ManifestCbor.Value>, first: Bytes, rest: Bytes)
    requires ManifestCbor.Encode(item) == Ok(first) && ManifestCbor.EncodeItems(items) == Ok(rest)
    ensures ManifestCbor.EncodeItems([item] + items) == Ok(first + rest)
  {
    assert ([item] + items)[1..] == items;
  }

  // The associated data is the domain and the canonical encoding of [hash, index, kind, count].
  lemma AadIsCanonical(headerHash: Hash32, index: nat, kind: nat, count: nat)
    requires InU32(index) && InU32(kind) && InU32(count)
    ensures ManifestCbor.Encode(AadBody(headerHash, index, kind, count)).Ok?
    ensures AadBytes(headerHash, index, kind, count)
         == FRAME_DOMAIN + [0] + ManifestCbor.Encode(AadBody(headerHash, index, kind, count)).value
  {
    hide UintBytes;
    var (i, k, c) := (ManifestCbor.Int(index), ManifestCbor.Int(kind), ManifestCbor.Int(count));
    var h := ManifestCbor.ByteString(headerHash);
    var (bi, bk, bc) := (UintBytes(index), UintBytes(kind), UintBytes(count));
    UintIsHead(index);
    UintIsHead(kind);
    UintIsHead(count);
    HashEncodes(headerHash);
    hide ManifestCbor.EncodeItems, ManifestCbor.Head, Ascii;
    EncodeNoItems();
    EncodesNext(c, [], bc, []);
    EncodesNext(k, [c] + [], bk, bc + []);
    EncodesNext(i, [k] + ([c] + []), bi, bk + (bc + []));
    EncodesNext(h, [i] + ([k] + ([c] + [])), [0x58] + [0x20] + headerHash, bi + (bk + (bc + [])));
    assert [h] + ([i] + ([k] + ([c] + []))) == [h, i, k, c];
    ListHeads();
    AadRegroup(FRAME_DOMAIN, headerHash, bi, bk, bc);
  }

  lemma AadRegroup(d: Bytes, h: Bytes, i: Bytes, k: Bytes, c: Bytes)
    ensures d + [0] + [0x84] + [0x58] + [0x20] + h + i + k + c
         == d + [0] + ([0x84] + ([0x58] + [0x20] + h + (i + (k + (c + [])))))
  {
  }

  lemma EncodeNoItems()
    ensures ManifestCbor.EncodeItems([]) == Ok([])
  {
  }

  lemma ListHeads()
    ensures ManifestCbor.Head(4, 4) == Ok([0x84]) && ManifestCbor.Head(4, 5) == Ok([0x85])
  {
  }

  // The footer is the canonical encoding of [hash, count, size, padded length, logical hash].
  lemma FooterIsCanonical(headerHash: Hash32, count: nat, size: nat, logicalHash: Hash32)
    requires InU32(count) && InU32(size) && InU32(count * CHUNK)
    ensures ManifestCbor.Encode(FooterBody(headerHash, count, size, logicalHash))
         == Ok(FooterBytes(headerHash, count, size, logicalHash))
  {
    hide UintBytes;
    var padded := count * CHUNK;
    var (c, z, p) := (ManifestCbor.Int(count), ManifestCbor.Int(size), ManifestCbor.Int(padded));
    var (h, l) := (ManifestCbor.ByteString(headerHash), ManifestCbor.ByteString(logicalHash));
    var (bc, bz, bp) := (UintBytes(count), UintBytes(size), UintBytes(padded));
    UintIsHead(count);
    UintIsHead(size);
    UintIsHead(padded);
    HashEncodes(headerHash);
    HashEncodes(logicalHash);
    hide ManifestCbor.EncodeItems, ManifestCbor.Head, Ascii;
    EncodeNoItems();
    var bl := [0x58] + [0x20] + logicalHash;
    EncodesNext(l, [], bl, []);
    EncodesNext(p, [l] + [], bp, bl + []);
    EncodesNext(z, [p] + ([l] + []), bz, bp + (bl + []));
    EncodesNext(c, [z] + ([p] + ([l] + [])), bc, bz + (bp + (bl + [])));
    EncodesNext(h, [c] + ([z] + ([p] + ([l] + []))), [0x58] + [0x20] + headerHash, bc + (bz + (bp + (bl + []))));
    assert [h] + ([c] + ([z] + ([p] + ([l] + [])))) == [h, c, z, p, l];
    ListHeads();
    FooterRegroup(headerHash, bc, bz, bp, logicalHash);
  }

  lemma FooterRegroup(h: Bytes, c: Bytes, z: Bytes, p: Bytes, l: Bytes)
    ensures [0x85] + [0x58] + [0x20] + h + c + z + p + [0x58] + [0x20] + l
         == [0x85] + ([0x58] + [0x20] + h + (c + (z + (p + ([0x58] + [0x20] + l + [])))))
  {
  }

  // Associated data determine header hash, index, kind and count.
  lemma AadInjective(h: Hash32, i: nat, k: nat, c: nat, h': Hash32, i': nat, k': nat, c': nat)
    requires InU32(i) && InU32(k) && InU32(c) && InU32(i') && InU32(k') && InU32(c')
    requires AadBytes(h, i, k, c) == AadBytes(h', i', k', c')
    ensures h == h' && i == i' && k == k' && c == c'
  {
    AadIsCanonical(h, i, k, c);
    AadIsCanonical(h', i', k', c');
    hide AadBytes, ManifestCbor.Encode;
    var (x, y) := (AadBody(h, i, k, c), AadBody(h', i', k', c'));
    SplitConcat(FRAME_DOMAIN + [0], ManifestCbor.Encode(x).value, FRAME_DOMAIN + [0], ManifestCbor.Encode(y).value);
    ManifestCbor.EncodeInjective(x, y);
    assert x.items[0] == y.items[0] && x.items[1] == y.items[1];
    assert x.items[2] == y.items[2] && x.items[3] == y.items[3];
  }
}
