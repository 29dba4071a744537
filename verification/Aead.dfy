/** Poly1305 and the sealing construction of the protocol oracle. */
module Aead {
  import opened Bits
  import opened Bytes
  import opened ChaCha20

  const P: int := 0x3_ffff_ffff_ffff_ffff_ffff_ffff_ffff_fffb
  const R_MASK: int := 0x0fff_fffc_0fff_fffc_0fff_fffc_0fff_ffff
  const TWO_128: int := 0x1_0000_0000_0000_0000_0000_0000_0000_0000

  /* ---------- Poly1305 ---------- */

  function Power(r: nat, n: nat): nat {
    if n == 0 then 1 else r * Power(r, n - 1)
  }

  // c[0] * r^n + c[1] * r^(n-1) + ... + c[n-1] * r
  function Polynomial(c: seq<nat>, r: nat): nat {
    if c == [] then 0 else c[0] * Power(r, |c|) + Polynomial(c[1..], r)
  }

  // The 16-byte blocks of a message, the last one possibly shorter.
  function Blocks(message: Bytes): seq<Bytes> {
    if |message| <= 16 then (if message == [] then [] else [message])
    else [message[..16]] + Blocks(message[16..])
  }

  // A block read as a little-endian number with a one byte above it.
  function Coefficient(block: Bytes): nat {
    FromLittle(block + [1])
  }

  function Coefficients(blocks: seq<Bytes>): (r: seq<nat>)
    ensures |r| == |blocks| && forall i :: 0 <= i < |r| ==> r[i] == Coefficient(blocks[i])
  {
    seq(|blocks|, i requires 0 <= i < |blocks| => Coefficient(blocks[i]))
  }

  function ClampedR(key: Bytes): nat
    requires |key| == 32
  {
    And(FromLittle(key[..16]), R_MASK)
  }

  // The tag: the block polynomial at the clamped r modulo 2^130 - 5, plus s modulo 2^128.
  function Tag(key: Bytes, message: Bytes): (tag: Bytes)
    requires |key| == 32
    ensures |tag| == 16
  {
    ToLittle((Evaluation(Blocks(message), ClampedR(key)) + FromLittle(key[16..])) % TWO_128, 16)
  }

  lemma {:induction false} PolynomialStep(c: seq<nat>, x: nat, r: nat)
    ensures Polynomial(c + [x], r) == (Polynomial(c, r) + x) * r
  {
    if c == [] {
      assert (c + [x])[1..] == [];
      assert Power(r, 1) == r * Power(r, 0) == r;
      assert Polynomial(c + [x], r) == x * r;
    } else {
      var (head, rest, n) := (c[0], c[1..], |c|);
      PolynomialStep(rest, x, r);
      assert (c + [x])[1..] == rest + [x];
      Distribute(head, Power(r, n), Polynomial(rest, r), x, r);
    }
  }

  lemma Distribute(a: nat, p: nat, q: nat, x: nat, r: nat)
    ensures a * (r * p) + (q + x) * r == (a * p + q + x) * r
  {
    assert a * (r * p) == (a * p) * r;
    assert (a * p + (q + x)) * r == (a * p) * r + (q + x) * r;
  }

  lemma ModMultiple(x: nat, k: nat)
    ensures (x + P * k) % P == x % P
  {
  }

  // Reducing before a multiply-accumulate step does not change its result.
  lemma ModStep(a: nat, x: nat, r: nat)
    ensures ((a % P + x) * r) % P == ((a + x) * r) % P
  {
    var (q, b) := (a / P, a % P);
    assert a == P * q + b;
    assert (P * q + b + x) * r == (b + x) * r + P * (q * r) by {
      assert (P * q + (b + x)) * r == (P * q) * r + (b + x) * r;
      assert (P * q) * r == P * (q * r);
    }
    ModMultiple((b + x) * r, q * r);
  }

  lemma {:induction false} BlocksFrom(message: Bytes, offset: nat)
    requires offset < |message|
    ensures var end := if offset + 16 < |message| then offset + 16 else |message|;
            Blocks(message[offset..]) == [message[offset..end]] + Blocks(message[end..])
            && (end == |message| ==> Blocks(message[end..]) == [])
  {
    var rest := message[offset..];
    if offset + 16 < |message| {
      assert rest[..16] == message[offset..offset + 16] && rest[16..] == message[offset + 16..];
    } else {
      assert message[offset..|message|] == rest && message[|message|..] == [];
    }
  }

  lemma StartsAtZero(r: nat)
    ensures Evaluation([], r) == 0 && Blocks([]) == []
  {
  }

  lemma CoefficientsAppend(blocks: seq<Bytes>, block: Bytes)
    ensures Coefficients(blocks + [block]) == Coefficients(blocks) + [Coefficient(block)]
  {
    var (whole, parts) := (Coefficients(blocks + [block]), Coefficients(blocks) + [Coefficient(block)]);
    assert forall i :: 0 <= i < |whole| ==> whole[i] == parts[i];
  }

  function Accumulate(accumulator: nat, block: Bytes, r: nat): nat {
    ((accumulator + Coefficient(block)) * r) % P
  }

  lemma AccumulateAgrees(done: seq<Bytes>, block: Bytes, r: nat)
    ensures Accumulate(Evaluation(done, r), block, r) == Evaluation(done + [block], r)
  {
    hide Polynomial, Coefficient;
    ModStep(Polynomial(Coefficients(done), r), Coefficient(block), r);
    PolynomialStep(Coefficients(done), Coefficient(block), r);
    CoefficientsAppend(done, block);
  }

  // The value the accumulator must reach.
  function Evaluation(blocks: seq<Bytes>, r: nat): nat {
    Polynomial(Coefficients(blocks), r) % P
  }

  // The accumulator loop.
  method AccumulateBlocks(message: Bytes, r: nat) returns (accumulator: nat)
    ensures accumulator == Evaluation(Blocks(message), r)
  {
    hide Evaluation, Accumulate, Blocks;
    accumulator := 0;
    var offset := 0;
    ghost var done: seq<Bytes> := [];
    StartsAtZero(r);
    assert message[0..] == message && done + Blocks(message) == Blocks(message);
    while offset < |message|
      invariant 0 <= offset
      invariant done + (if offset < |message| then Blocks(message[offset..]) else []) == Blocks(message)
      invariant accumulator == Evaluation(done, r)
    {
      var end := if offset + 16 < |message| then offset + 16 else |message|;
      var block := message[offset..end];
      BlocksFrom(message, offset);
      AccumulateAgrees(done, block, r);
      accumulator := Accumulate(accumulator, block, r);
      done := done + [block];
      offset := offset + 16;
    }
    assert done == Blocks(message);
  }

  // None where the key length is refused.
  method Poly1305(key: Bytes, message: Bytes) returns (tag: Option<Bytes>)
    ensures tag == if |key| == 32 then Some(Tag(key, message)) else None
  {
    if |key| != 32 { return None; }
    hide ClampedR, FromLittle, ToLittle, Evaluation, Blocks;
    var r := ClampedR(key);
    var s := FromLittle(key[16..]);
    var accumulator := AccumulateBlocks(message, r);
    return Some(ToLittle((accumulator + s) % TWO_128, 16));
  }

  /* ---------- the MAC input ---------- */

  function Pad16(value: Bytes): (pad: Bytes)
    ensures |pad| < 16 && (|value| + |pad|) % 16 == 0
    ensures forall i :: 0 <= i < |pad| ==> pad[i] == 0
  {
    if |value| % 16 == 0 then [] else Zeros(16 - |value| % 16)
  }

  function MacInput(aad: Bytes, ciphertext: Bytes): Bytes {
    aad + Pad16(aad) + ciphertext + Pad16(ciphertext) + ToLittle(|aad|, 8) + ToLittle(|ciphertext|, 8)
  }

  predicate FitsLength(value: Bytes) {
    |value| <= U64_MAX
  }

  lemma LengthDetermined(a: Bytes, b: Bytes)
    requires FitsLength(a) && FitsLength(b) && ToLittle(|a|, 8) == ToLittle(|b|, 8)
    ensures |a| == |b|
  {
    hide ToLittle, FromLittle;
    Pow256Values();
    LittleRoundTrip(|a|, 8);
    LittleRoundTrip(|b|, 8);
  }

  // The authenticated bytes determine both parts: no padding or split is mistaken for another.
  lemma MacInputInjective(a: Bytes, c: Bytes, a': Bytes, c': Bytes)
    requires FitsLength(a) && FitsLength(c) && FitsLength(a') && FitsLength(c')
    requires MacInput(a, c) == MacInput(a', c')
    ensures a == a' && c == c'
  {
    hide ToLittle, Pad16;
    var (x, x') := (a + Pad16(a) + c + Pad16(c), a' + Pad16(a') + c' + Pad16(c'));
    SplitTail(x + ToLittle(|a|, 8), ToLittle(|c|, 8), x' + ToLittle(|a'|, 8), ToLittle(|c'|, 8));
    SplitTail(x, ToLittle(|a|, 8), x', ToLittle(|a'|, 8));
    LengthDetermined(a, a');
    LengthDetermined(c, c');
    assert x[..|a|] == a && x'[..|a'|] == a';
    SamePadLength(a, a');
    var (y, y') := (a + Pad16(a), a' + Pad16(a'));
    assert x[|y|..|y| + |c|] == c && x'[|y'|..|y'| + |c'|] == c';
  }

  lemma SamePadLength(a: Bytes, b: Bytes)
    requires |a| == |b|
    ensures |Pad16(a)| == |Pad16(b)|
  {
  }

  lemma SplitTail(a: Bytes, b: Bytes, c: Bytes, d: Bytes)
    requires |b| == |d| && a + b == c + d
    ensures a == c && b == d
  {
    assert |a| == |a + b| - |b| == |c|;
    SplitConcat(a, b, c, d);
  }

  /* ---------- sealing ---------- */

  // The block the one-time key is taken from, and the first one that encrypts.
  const KEY_COUNTER: nat := 0
  const FIRST_COUNTER: nat := 1

  datatype SealError = KeyOrNonce | LengthOverflow

  function Ciphertext(key: Bytes, nonce: Bytes, plaintext: Bytes): Bytes
    requires |key| == 32 && |nonce| == 12
  {
    XorStream(key, nonce, FIRST_COUNTER, plaintext)
  }

  function Sealed(key: Bytes, nonce: Bytes, aad: Bytes, plaintext: Bytes): Bytes
    requires |key| == 32 && |nonce| == 12
  {
    var ciphertext := Ciphertext(key, nonce, plaintext);
    ciphertext + Tag(Block(key, KEY_COUNTER, nonce)[..32], MacInput(aad, ciphertext))
  }

  method ChaCha20Poly1305Seal(key: Bytes, nonce: Bytes, aad: Bytes, plaintext: Bytes)
      returns (r: Result<Bytes, SealError>)
    ensures r == if |key| != 32 || |nonce| != 12 then Err(KeyOrNonce)
                 else if !FitsLength(aad) || !FitsLength(plaintext) then Err(LengthOverflow)
                 else Ok(Sealed(key, nonce, aad, plaintext))
  {
    hide Block, Tag, XorStream;
    var block := ChaChaBlock(key, KEY_COUNTER, nonce);
    if block.None? { return Err(KeyOrNonce); }
    var oneTimeKey := block.value[..32];
    var stream := ChaChaXor(key, nonce, FIRST_COUNTER, plaintext);
    var ciphertext := stream.value;
    assert ciphertext == Ciphertext(key, nonce, plaintext);
    if !FitsLength(aad) || !FitsLength(ciphertext) { return Err(LengthOverflow); }
    var tag := Poly1305(oneTimeKey, MacInput(aad, ciphertext));
    return Ok(ciphertext + tag.value);
  }

  // A sealed message carries its plaintext: the stream applied again to all but the tag gives it
  // back, and the tag is the one computed over exactly that associated data and ciphertext.
  lemma SealedOpens(key: Bytes, nonce: Bytes, aad: Bytes, plaintext: Bytes)
    requires |key| == 32 && |nonce| == 12
    ensures var sealed := Sealed(key, nonce, aad, plaintext);
            |sealed| == |plaintext| + 16
            && XorStream(key, nonce, FIRST_COUNTER, sealed[..|plaintext|]) == plaintext
            && sealed[|plaintext|..] == Tag(Block(key, KEY_COUNTER, nonce)[..32], MacInput(aad, sealed[..|plaintext|]))
  {
    hide Block, Tag, XorStream;
    var ciphertext := Ciphertext(key, nonce, plaintext);
    XorStreamInvolution(key, nonce, FIRST_COUNTER, plaintext);
    assert Sealed(key, nonce, aad, plaintext)[..|plaintext|] == ciphertext;
  }

  // Each byte of a sealed message is encrypted with its own byte of the block its counter names.
  // The block that supplies the one-time key is not among those blocks exactly when the message is
  // at most 64 * (2^32 - 1) bytes long; beyond that the counter comes round to it.
  lemma KeyBlockIsNotReused(key: Bytes, nonce: Bytes, aad: Bytes, plaintext: Bytes)
    requires |key| == 32 && |nonce| == 12
    ensures |Sealed(key, nonce, aad, plaintext)| > |plaintext|
    ensures forall i :: 0 <= i < |plaintext| ==>
              Sealed(key, nonce, aad, plaintext)[i]
                == XorByte(plaintext[i], Block(key, BlockCounter(FIRST_COUNTER, i), nonce)[i % 64])
    ensures (forall i :: 0 <= i < |plaintext| ==> BlockCounter(FIRST_COUNTER, i) != KEY_COUNTER)
            <==> |plaintext| <= 64 * (U32 - 1)
  {
    CountersBelow(|plaintext|);
    hide Block, BlockCounter, Sealed;
    SealedStartsWithCiphertext(key, nonce, aad, plaintext);
    forall i | 0 <= i < |plaintext|
      ensures Sealed(key, nonce, aad, plaintext)[i]
                == XorByte(plaintext[i], Block(key, BlockCounter(FIRST_COUNTER, i), nonce)[i % 64])
    {
      CipherByte(key, nonce, plaintext, i);
    }
  }

  lemma SealedStartsWithCiphertext(key: Bytes, nonce: Bytes, aad: Bytes, plaintext: Bytes)
    requires |key| == 32 && |nonce| == 12
    ensures |Sealed(key, nonce, aad, plaintext)| > |plaintext| == |Ciphertext(key, nonce, plaintext)|
    ensures forall i :: 0 <= i < |plaintext|
              ==> Sealed(key, nonce, aad, plaintext)[i] == Ciphertext(key, nonce, plaintext)[i]
  {
    hide Block, Tag, XorStream;
  }

  lemma CipherByte(key: Bytes, nonce: Bytes, plaintext: Bytes, i: nat)
    requires |key| == 32 && |nonce| == 12 && i < |plaintext|
    ensures i < |Ciphertext(key, nonce, plaintext)|
    ensures Ciphertext(key, nonce, plaintext)[i]
              == XorByte(plaintext[i], Block(key, BlockCounter(FIRST_COUNTER, i), nonce)[i % 64])
  {
    hide Block, XorByte, BlockCounter;
  }

  lemma CountersBelow(length: nat)
    ensures (forall i :: 0 <= i < length ==> BlockCounter(FIRST_COUNTER, i) != KEY_COUNTER)
       <==> length <= 64 * (U32 - 1)
  {
    var wrap := 64 * (U32 - 1);
    assert BlockCounter(FIRST_COUNTER, wrap) == KEY_COUNTER;
    if length <= wrap {
      forall i | 0 <= i < length ensures BlockCounter(FIRST_COUNTER, i) != KEY_COUNTER {
        assert i / 64 < U32 - 1;
      }
    }
  }
}
