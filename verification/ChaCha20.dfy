/** ChaCha20 as the protocol oracle computes it: rounds in place, blocks, and the XOR stream. */
module ChaCha20 {
  import opened Bits
  import opened Bytes

  const U32: int := 0x1_0000_0000

  type Word = w: int | 0 <= w < U32
  type State = s: seq<Word> | |s| == 16 witness seq(16, i => 0)

  /* ---------- words ---------- */

  function Add(a: Word, b: Word): Word {
    (a + b) % U32
  }

  function Sub(a: Word, b: Word): Word {
    (a - b) % U32
  }

  // rotate_left32(a ^ b, amount)
  function XorRotated(a: Word, b: Word, amount: nat): Word
    requires amount <= 32
  {
    XorWord(a, b);
    RotateInverse(Xor(a, b), amount);
    Pow2Values();
    RotateLeft(Xor(a, b), amount)
  }

  function UnrotatedXor(a: Word, b: Word, amount: nat): Word
    requires amount <= 32
  {
    Pow2Values();
    RotateInverse(a, 32 - amount);
    XorWord(RotateLeft(a, 32 - amount), b);
    Xor(RotateLeft(a, 32 - amount), b)
  }

  lemma XorWord(a: nat, b: nat)
    requires a < U32 && b < U32
    ensures Xor(a, b) < U32 == Pow2(32)
  {
    Pow2Values();
    XorBound(a, b, 32);
  }

  lemma AddSubInverse(a: Word, b: Word)
    ensures Sub(Add(a, b), b) == a && Add(Sub(a, b), b) == a
  {
    assert Add(a, b) == if a + b < U32 then a + b else a + b - U32;
    assert Sub(a, b) == if a >= b then a - b else a - b + U32;
  }

  lemma XorRotatedInverse(a: Word, b: Word, amount: nat)
    requires amount <= 32
    ensures UnrotatedXor(XorRotated(a, b, amount), b, amount) == a
    ensures XorRotated(UnrotatedXor(a, b, amount), b, amount) == a
  {
    hide Xor, RotateLeft, Pow2;
    Pow2Values();
    XorWord(a, b);
    RotateInverse(Xor(a, b), amount);
    XorInvolution(a, b);
    RotateInverse(a, 32 - amount);
    XorInvolution(RotateLeft(a, 32 - amount), b);
  }

  /* ---------- the quarter round ---------- */

  // The eight updates of the quarter round, one after the other, at four positions of a state.
  function Quarter(s: State, a: nat, b: nat, c: nat, d: nat): State
    requires a < 16 && b < 16 && c < 16 && d < 16
  {
    var s := AddTo(s, a, b);
    var s := XorRotate(s, d, a, 16);
    var s := AddTo(s, c, d);
    var s := XorRotate(s, b, c, 12);
    var s := AddTo(s, a, b);
    var s := XorRotate(s, d, a, 8);
    var s := AddTo(s, c, d);
    XorRotate(s, b, c, 7)
  }

  // The updates undone, last first.
  function Unquarter(s: State, a: nat, b: nat, c: nat, d: nat): State
    requires a < 16 && b < 16 && c < 16 && d < 16
  {
    var s := UnrotateXor(s, b, c, 7);
    var s := SubFrom(s, c, d);
    var s := UnrotateXor(s, d, a, 8);
    var s := SubFrom(s, a, b);
    var s := UnrotateXor(s, b, c, 12);
    var s := SubFrom(s, c, d);
    var s := UnrotateXor(s, d, a, 16);
    SubFrom(s, a, b)
  }

  predicate Distinct(a: nat, b: nat, c: nat, d: nat) {
    a != b && a != c && a != d && b != c && b != d && c != d
  }

  function AddTo(s: State, x: nat, y: nat): State
    requires x < 16 && y < 16
  {
    s[x := Add(s[x], s[y])]
  }

  function SubFrom(s: State, x: nat, y: nat): State
    requires x < 16 && y < 16
  {
    s[x := Sub(s[x], s[y])]
  }

  function XorRotate(s: State, x: nat, y: nat, amount: nat): State
    requires x < 16 && y < 16 && amount <= 32
  {
    s[x := XorRotated(s[x], s[y], amount)]
  }

  function UnrotateXor(s: State, x: nat, y: nat, amount: nat): State
    requires x < 16 && y < 16 && amount <= 32
  {
    s[x := UnrotatedXor(s[x], s[y], amount)]
  }

  lemma AddInverse(s: State, x: nat, y: nat)
    requires x < 16 && y < 16 && x != y
    ensures SubFrom(AddTo(s, x, y), x, y) == s && AddTo(SubFrom(s, x, y), x, y) == s
  {
    hide Add, Sub;
    AddSubInverse(s[x], s[y]);
  }

  lemma XorRotateInverse(s: State, x: nat, y: nat, amount: nat)
    requires x < 16 && y < 16 && x != y && amount <= 32
    ensures UnrotateXor(XorRotate(s, x, y, amount), x, y, amount) == s
    ensures XorRotate(UnrotateXor(s, x, y, amount), x, y, amount) == s
  {
    hide XorRotated, UnrotatedXor;
    XorRotatedInverse(s[x], s[y], amount);
  }

  // At four different positions the quarter round and its undoing are inverse to each other.
  lemma QuarterInverse(s: State, a: nat, b: nat, c: nat, d: nat)
    requires a < 16 && b < 16 && c < 16 && d < 16 && Distinct(a, b, c, d)
    ensures Unquarter(Quarter(s, a, b, c, d), a, b, c, d) == s
    ensures Quarter(Unquarter(s, a, b, c, d), a, b, c, d) == s
  {
    hide AddTo, SubFrom, XorRotate, UnrotateXor;
    var s1 := AddTo(s, a, b);
    var s2 := XorRotate(s1, d, a, 16);
    var s3 := AddTo(s2, c, d);
    var s4 := XorRotate(s3, b, c, 12);
    var s5 := AddTo(s4, a, b);
    var s6 := XorRotate(s5, d, a, 8);
    var s7 := AddTo(s6, c, d);
    AddInverse(s, a, b);
    XorRotateInverse(s1, d, a, 16);
    AddInverse(s2, c, d);
    XorRotateInverse(s3, b, c, 12);
    AddInverse(s4, a, b);
    XorRotateInverse(s5, d, a, 8);
    AddInverse(s6, c, d);
    XorRotateInverse(s7, b, c, 7);
    var t7 := UnrotateXor(s, b, c, 7);
    var t6 := SubFrom(t7, c, d);
    var t5 := UnrotateXor(t6, d, a, 8);
    var t4 := SubFrom(t5, a, b);
    var t3 := UnrotateXor(t4, b, c, 12);
    var t2 := SubFrom(t3, c, d);
    var t1 := UnrotateXor(t2, d, a, 16);
    AddInverse(t1, a, b);
    XorRotateInverse(t2, d, a, 16);
    AddInverse(t3, c, d);
    XorRotateInverse(t4, b, c, 12);
    AddInverse(t5, a, b);
    XorRotateInverse(t6, d, a, 8);
    AddInverse(t7, c, d);
    XorRotateInverse(s, b, c, 7);
  }

  // A quarter round touches no other word of the state.
  lemma QuarterIsLocal(s: State, a: nat, b: nat, c: nat, d: nat, i: nat)
    requires a < 16 && b < 16 && c < 16 && d < 16 && i < 16
    requires i != a && i != b && i != c && i != d
    ensures Quarter(s, a, b, c, d)[i] == s[i]
  {
    hide Add, XorRotated;
  }

  method QuarterRound(state: array<Word>, a: nat, b: nat, c: nat, d: nat)
    requires state.Length == 16 && a < 16 && b < 16 && c < 16 && d < 16
    modifies state
    ensures state[..] == Quarter(old(state[..]), a, b, c, d)
  {
    hide Add, XorRotated;
    state[a] := Add(state[a], state[b]);
    assert state[..] == AddTo(old(state[..]), a, b);
    state[d] := XorRotated(state[d], state[a], 16);
    state[c] := Add(state[c], state[d]);
    state[b] := XorRotated(state[b], state[c], 12);
    state[a] := Add(state[a], state[b]);
    state[d] := XorRotated(state[d], state[a], 8);
    state[c] := Add(state[c], state[d]);
    state[b] := XorRotated(state[b], state[c], 7);
  }

  /* ---------- double rounds ---------- */

  function Columns(s: State): State {
    Quarter(Quarter(Quarter(Quarter(s, 0, 4, 8, 12), 1, 5, 9, 13), 2, 6, 10, 14), 3, 7, 11, 15)
  }

  function Diagonals(s: State): State {
    Quarter(Quarter(Quarter(Quarter(s, 0, 5, 10, 15), 1, 6, 11, 12), 2, 7, 8, 13), 3, 4, 9, 14)
  }

  function Uncolumns(s: State): State {
    Unquarter(Unquarter(Unquarter(Unquarter(s, 3, 7, 11, 15), 2, 6, 10, 14), 1, 5, 9, 13), 0, 4, 8, 12)
  }

  function Undiagonals(s: State): State {
    Unquarter(Unquarter(Unquarter(Unquarter(s, 3, 4, 9, 14), 2, 7, 8, 13), 1, 6, 11, 12), 0, 5, 10, 15)
  }

  function Rounds(s: State, n: nat): State {
    if n == 0 then s else Diagonals(Columns(Rounds(s, n - 1)))
  }

  function Unrounds(s: State, n: nat): State
    decreases n
  {
    if n == 0 then s else Unrounds(Uncolumns(Undiagonals(s)), n - 1)
  }

  lemma ColumnsInverse(s: State)
    ensures Uncolumns(Columns(s)) == s && Columns(Uncolumns(s)) == s
  {
    hide Quarter, Unquarter;
    QuarterInverse(s, 0, 4, 8, 12);
    var s1 := Quarter(s, 0, 4, 8, 12);
    QuarterInverse(s1, 1, 5, 9, 13);
    var s2 := Quarter(s1, 1, 5, 9, 13);
    QuarterInverse(s2, 2, 6, 10, 14);
    QuarterInverse(Quarter(s2, 2, 6, 10, 14), 3, 7, 11, 15);
    QuarterInverse(s, 3, 7, 11, 15);
    var t1 := Unquarter(s, 3, 7, 11, 15);
    QuarterInverse(t1, 2, 6, 10, 14);
    var t2 := Unquarter(t1, 2, 6, 10, 14);
    QuarterInverse(t2, 1, 5, 9, 13);
    QuarterInverse(Unquarter(t2, 1, 5, 9, 13), 0, 4, 8, 12);
  }

  lemma DiagonalsInverse(s: State)
    ensures Undiagonals(Diagonals(s)) == s && Diagonals(Undiagonals(s)) == s
  {
    hide Quarter, Unquarter;
    QuarterInverse(s, 0, 5, 10, 15);
    var s1 := Quarter(s, 0, 5, 10, 15);
    QuarterInverse(s1, 1, 6, 11, 12);
    var s2 := Quarter(s1, 1, 6, 11, 12);
    QuarterInverse(s2, 2, 7, 8, 13);
    QuarterInverse(Quarter(s2, 2, 7, 8, 13), 3, 4, 9, 14);
    QuarterInverse(s, 3, 4, 9, 14);
    var t1 := Unquarter(s, 3, 4, 9, 14);
    QuarterInverse(t1, 2, 7, 8, 13);
    var t2 := Unquarter(t1, 2, 7, 8, 13);
    QuarterInverse(t2, 1, 6, 11, 12);
    QuarterInverse(Unquarter(t2, 1, 6, 11, 12), 0, 5, 10, 15);
  }

  // Any number of double rounds permutes the 16-word states.
  lemma {:induction false} RoundsPermute(s: State, n: nat)
    ensures Unrounds(Rounds(s, n), n) == s && Rounds(Unrounds(s, n), n) == s
    decreases n
  {
    hide Columns, Diagonals, Uncolumns, Undiagonals;
    if n > 0 {
      RoundsPermute(s, n - 1);
      var before := Rounds(s, n - 1);
      ColumnsInverse(before);
      DiagonalsInverse(Columns(before));
      var after := Uncolumns(Undiagonals(s));
      RoundsPermute(after, n - 1);
      DiagonalsInverse(s);
      ColumnsInverse(Undiagonals(s));
    }
  }

  method ChaChaRounds(state: State) returns (working: seq<Word>)
    ensures working == Rounds(state, 10)
  {
    hide Quarter;
    var w := new Word[16](i requires 0 <= i < 16 => state[i]);
    var round := 0;
    assert w[..] == state;
    while round < 10
      invariant 0 <= round <= 10
      invariant w[..] == Rounds(state, round)
    {
      ghost var s := w[..];
      QuarterRound(w, 0, 4, 8, 12);
      QuarterRound(w, 1, 5, 9, 13);
      QuarterRound(w, 2, 6, 10, 14);
      QuarterRound(w, 3, 7, 11, 15);
      assert w[..] == Columns(s);
      QuarterRound(w, 0, 5, 10, 15);
      QuarterRound(w, 1, 6, 11, 12);
      QuarterRound(w, 2, 7, 8, 13);
      QuarterRound(w, 3, 4, 9, 14);
      round := round + 1;
    }
    working := w[..];
  }

  /* ---------- blocks ---------- */

  function WordOf(b: Bytes): Word
    requires |b| == 4
  {
    LittleOfBytes(b);
    Pow256Values();
    FromLittle(b)
  }

  function WordsOf(b: Bytes): (r: seq<Word>)
    requires |b| % 4 == 0
    ensures |r| == |b| / 4
  {
    if b == [] then [] else [WordOf(b[..4])] + WordsOf(b[4..])
  }

  function BytesOf(words: seq<Word>): (r: Bytes)
    ensures |r| == 4 * |words|
  {
    if words == [] then [] else ToLittle(words[0], 4) + BytesOf(words[1..])
  }

  const CONSTANT: Bytes := Ascii("expand 32-byte k")

  function InitialState(key: Bytes, counter: nat, nonce: Bytes): State
    requires |key| == 32 && |nonce| == 12 && counter < U32
  {
    WordsOf(CONSTANT) + WordsOf(key) + [counter] + WordsOf(nonce)
  }

  function AddWords(a: State, b: State): State {
    seq(16, i requires 0 <= i < 16 => Add(a[i], b[i]))
  }

  function Block(key: Bytes, counter: nat, nonce: Bytes): (r: Bytes)
    requires |key| == 32 && |nonce| == 12 && counter < U32
    ensures |r| == 64
  {
    var state := InitialState(key, counter, nonce);
    BytesOf(AddWords(Rounds(state, 10), state))
  }

  // None where the lengths are refused.
  method ChaChaBlock(key: Bytes, counter: nat, nonce: Bytes) returns (r: Option<Bytes>)
    requires counter < U32
    ensures r == if |key| == 32 && |nonce| == 12 then Some(Block(key, counter, nonce)) else None
  {
    if |key| != 32 || |nonce| != 12 { return None; }
    var state := InitialState(key, counter, nonce);
    var working := ChaChaRounds(state);
    return Some(BytesOf(AddWords(working, state)));
  }

  /* ---------- the XOR stream ---------- */

  function XorByte(a: byte, b: byte): byte {
    Pow2Values();
    XorBound(a, b, 8);
    Xor(a, b)
  }

  lemma XorByteInvolution(a: byte, b: byte)
    ensures XorByte(XorByte(a, b), b) == a
  {
    hide Xor, Pow2;
    XorInvolution(a, b);
  }

  // The block that byte i of a stream comes from: the 32-bit counter wraps around.
  function BlockCounter(counter: nat, i: nat): nat {
    (counter + i / 64) % U32
  }

  // Byte i of the keystream that starts at a counter: byte i mod 64 of its block.
  function KeystreamByte(key: Bytes, nonce: Bytes, counter: nat, i: nat): byte
    requires |key| == 32 && |nonce| == 12
  {
    Block(key, BlockCounter(counter, i), nonce)[i % 64]
  }

  function XorStream(key: Bytes, nonce: Bytes, counter: nat, value: Bytes): (r: Bytes)
    requires |key| == 32 && |nonce| == 12
    ensures |r| == |value|
  {
    seq(|value|, i requires 0 <= i < |value| => XorByte(value[i], KeystreamByte(key, nonce, counter, i)))
  }

  function XorBytes(part: Bytes, block: Bytes): (r: Bytes)
    requires |part| <= |block|
    ensures |r| == |part|
  {
    seq(|part|, i requires 0 <= i < |part| => XorByte(part[i], block[i]))
  }

  // Applying the stream twice gives the value back.
  lemma XorStreamInvolution(key: Bytes, nonce: Bytes, counter: nat, value: Bytes)
    requires |key| == 32 && |nonce| == 12
    ensures XorStream(key, nonce, counter, XorStream(key, nonce, counter, value)) == value
  {
    hide XorByte, KeystreamByte;
    var once := XorStream(key, nonce, counter, value);
    var twice := XorStream(key, nonce, counter, once);
    forall i | 0 <= i < |value| ensures twice[i] == value[i] {
      XorByteInvolution(value[i], KeystreamByte(key, nonce, counter, i));
    }
  }

  lemma NextCounter(counter: nat, blocks: nat)
    ensures ((counter + blocks) % U32 + 1) % U32 == (counter + (blocks + 1)) % U32
  {
  }

  lemma BlockOfByte(block: nat, i: nat)
    requires 64 * block <= i < 64 * block + 64
    ensures i / 64 == block && i % 64 == i - 64 * block
  {
  }

  // A wrong key or nonce length is only noticed when there is a byte to encrypt.
  method ChaChaXor(key: Bytes, nonce: Bytes, counter: nat, value: Bytes) returns (r: Option<Bytes>)
    requires counter < U32
    ensures r == if value == [] then Some([])
                 else if |key| != 32 || |nonce| != 12 then None
                 else Some(XorStream(key, nonce, counter, value))
  {
    hide XorByte, Block;
    var output: Bytes := [];
    var current := counter;
    var offset := 0;
    ghost var blocks: nat := 0;
    while offset < |value|
      invariant offset == 64 * blocks
      invariant current == (counter + blocks) % U32
      invariant |output| == if offset < |value| then offset else |value|
      invariant offset > 0 ==> |key| == 32 && |nonce| == 12
      invariant forall i :: 0 <= i < |output| ==> output[i] == XorByte(value[i], KeystreamByte(key, nonce, counter, i))
    {
      var block := ChaChaBlock(key, current, nonce);
      if block.None? { return None; }
      var part := value[offset..if offset + 64 < |value| then offset + 64 else |value|];
      ghost var before := output;
      output := output + XorBytes(part, block.value);
      forall i | 0 <= i < |output|
        ensures output[i] == XorByte(value[i], KeystreamByte(key, nonce, counter, i))
      {
        if i < offset {
          assert output[i] == before[i];
        } else {
          BlockOfByte(blocks, i);
          assert output[i] == XorByte(part[i - offset], block.value[i - offset]);
        }
      }
      NextCounter(counter, blocks);
      blocks := blocks + 1;
      current := (current + 1) % U32;
      offset := offset + 64;
    }
    if value != [] {
      assert output == XorStream(key, nonce, counter, value);
    }
    return Some(output);
  }
}
