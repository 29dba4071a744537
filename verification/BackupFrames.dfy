/** The frame loops of the backup generator and of the independent checker. */
module BackupFrames {
  import opened Bytes
  import opened BackupStream
  import ManifestCbor

  datatype Tag = Message | Final

  // The stream cipher: pushing seals a frame under its associated data, pulling opens it.
  datatype Pushed<S> = Pushed(state: S, ciphertext: Bytes)
  datatype Pulled<S> = Pulled(state: S, plaintext: Bytes, tag: Tag)
  datatype Cipher<!S> = Cipher(
    push: (S, Bytes, Bytes, Tag) -> Pushed<S>,
    pull: (S, Bytes, Bytes) -> Option<Pulled<S>>)

  // From equal states, pulling inverts pushing and both end in equal states again.
  ghost predicate CipherLaw<S(!new)>(cipher: Cipher<S>) {
    forall s, m, a, t ::
      var pushed := cipher.push(s, m, a, t);
      |pushed.ciphertext| == |m| + OVERHEAD && cipher.pull(s, pushed.ciphertext, a) == Some(Pulled(pushed.state, m, t))
  }

  // Deterministic padding bytes from a seed.
  type Padding = (Bytes, nat) -> Bytes

  ghost predicate PaddingLaw(pad: Padding) {
    forall seed, n :: |pad(seed, n)| == n
  }

  datatype Case = Case(id: nat, size: nat, count: nat, headerHash: Hash32, logicalHash: Hash32)

  // The files of one frame; None for a file that is not there.
  datatype FrameFiles = FrameFiles(
    aad: Option<Bytes>, plaintext: Option<Bytes>, ciphertext: Option<Bytes>, tag: Option<Bytes>, seed: Option<Bytes>)

  const MESSAGE_TEXT: Bytes := Ascii("MESSAGE\n")
  const FINAL_TEXT: Bytes := Ascii("FINAL\n")

  /* ---------- what a frame must hold ---------- */

  // Snapshot bytes in a frame.
  function LogicalInFrame(size: nat, index: nat): (n: nat)
    ensures n <= CHUNK
  {
    var offset := index * CHUNK;
    if size > offset then (if size - offset > CHUNK then CHUNK else size - offset) else 0
  }

  function PaddingSeed(id: nat, index: nat): (seed: Bytes)
    ensures |seed| == 32
  {
    seq(32, o => (0x51 + id * 19 + index * 31 + o) % 0x100)
  }

  function MessagePlaintext(c: Case, pad: Padding, index: nat): Bytes {
    var logical := LogicalInFrame(c.size, index);
    Zeros(logical) + (if logical < CHUNK then pad(PaddingSeed(c.id, index), CHUNK - logical) else [])
  }

  predicate Encodable(c: Case) {
    FooterFits(c.count, c.size)
  }

  function TagOf(c: Case, index: nat): Tag {
    if index == c.count then Final else Message
  }

  function TagText(c: Case, index: nat): Bytes {
    if index == c.count then FINAL_TEXT else MESSAGE_TEXT
  }

  // Message frames need a 32-bit count; the last frame needs a footer that can be encoded.
  predicate FrameEncodable(c: Case, index: nat) {
    index <= c.count && InU32(c.count) && (index == c.count ==> Encodable(c))
  }

  function Aad(c: Case, index: nat): Bytes
    requires FrameEncodable(c, index)
  {
    AadBytes(c.headerHash, index, if index == c.count then FINAL_KIND else MESSAGE_KIND, c.count)
  }

  function Plaintext(c: Case, pad: Padding, index: nat): Bytes
    requires FrameEncodable(c, index)
  {
    if index == c.count then FooterBytes(c.headerHash, c.count, c.size, c.logicalHash)
    else MessagePlaintext(c, pad, index)
  }

  lemma PlaintextLength(c: Case, pad: Padding, index: nat)
    requires FrameEncodable(c, index) && PaddingLaw(pad)
    ensures index < c.count ==> |Plaintext(c, pad, index)| == CHUNK
    ensures 1 <= |Plaintext(c, pad, index)| <= CHUNK
  {
  }

  /* ---------- the generator ---------- */

  function StateAfter<S>(cipher: Cipher<S>, s0: S, c: Case, pad: Padding, n: nat): S
    requires Encodable(c) && n <= c.count + 1
  {
    if n == 0 then s0
    else cipher.push(StateAfter(cipher, s0, c, pad, n - 1), Plaintext(c, pad, n - 1),
                     Aad(c, n - 1), TagOf(c, n - 1)).state
  }

  function GeneratedFrame<S>(cipher: Cipher<S>, s0: S, c: Case, pad: Padding, index: nat): FrameFiles
    requires Encodable(c) && index <= c.count
  {
    var s := StateAfter(cipher, s0, c, pad, index);
    var pushed := cipher.push(s, Plaintext(c, pad, index), Aad(c, index), TagOf(c, index));
    FrameFiles(Some(Aad(c, index)), Some(Plaintext(c, pad, index)), Some(pushed.ciphertext),
               Some(TagText(c, index)), if index == c.count then None else Some(PaddingSeed(c.id, index)))
  }

  // The generator succeeds exactly when the footer can be encoded, and then writes the frames
  // 0 to count in order.
  method WriteFrames<S(!new)>(cipher: Cipher<S>, s0: S, c: Case, pad: Padding)
      returns (ok: bool, frames: seq<FrameFiles>)
    requires c.size <= U64_MAX && c.count <= U64_MAX && CipherLaw(cipher)
    ensures ok <==> Encodable(c)
    ensures ok ==> |frames| == c.count + 1
    ensures ok ==> forall i :: 0 <= i <= c.count ==> frames[i] == GeneratedFrame(cipher, s0, c, pad, i)
  {
    hide AadBytes, FooterBytes, CipherLaw, MessagePlaintext, Onto, UintsBytes, FooterWritten, AadHead;
    frames := [];
    var stream := s0;
    var index := 0;
    while index < c.count
      invariant 0 <= index <= c.count && |frames| == index
      invariant index > 0 ==> InU32(c.count)
      invariant Encodable(c) ==> stream == StateAfter(cipher, s0, c, pad, index)
      invariant Encodable(c) ==> forall i :: 0 <= i < index ==> frames[i] == GeneratedFrame(cipher, s0, c, pad, i)
    {
      var plaintext := MessagePlaintext(c, pad, index);
      var buffer := new byte[AAD_MAX];
      var code, length := BuildAad(c.headerHash, index, MESSAGE_KIND, c.count, buffer);
      if code != 0 { return false, frames; }
      var aad := buffer[..length];
      var pushed := cipher.push(stream, plaintext, aad, Message);
      CipherAt(cipher, stream, plaintext, aad, Message);
      if |pushed.ciphertext| != |plaintext| + OVERHEAD { return false, frames; }
      var frame := FrameFiles(Some(aad), Some(plaintext), Some(pushed.ciphertext),
                              Some(MESSAGE_TEXT), Some(PaddingSeed(c.id, index)));
      assert Encodable(c) ==> frame == GeneratedFrame(cipher, s0, c, pad, index);
      frames := frames + [frame];
      stream := pushed.state;
      index := index + 1;
    }
    var output := new byte[FINAL_MAX];
    var code, length := BuildFinalPlaintext(c.headerHash, c.count, c.size, c.logicalHash, output);
    if code != 0 { return false, frames; }
    var plaintext := output[..length];
    var buffer := new byte[AAD_MAX];
    var aadLength;
    code, aadLength := BuildAad(c.headerHash, c.count, FINAL_KIND, c.count, buffer);
    if code != 0 { return false, frames; }
    var aad := buffer[..aadLength];
    var pushed := cipher.push(stream, plaintext, aad, Final);
    CipherAt(cipher, stream, plaintext, aad, Final);
    if |pushed.ciphertext| != |plaintext| + OVERHEAD { return false, frames; }
    var frame := FrameFiles(Some(aad), Some(plaintext), Some(pushed.ciphertext), Some(FINAL_TEXT), None);
    assert frame == GeneratedFrame(cipher, s0, c, pad, c.count);
    frames := frames + [frame];
    return true, frames;
  }

  /* ---------- the checker ---------- */

  // read_regular_file: present, not empty and not larger than a sealed chunk
  predicate Readable(file: Option<Bytes>) {
    file.Some? && 0 < |file.value| <= MAX_FILE
  }

  // strcmp sees a buffer up to its first NUL.
  function CString(bytes: Bytes): Bytes {
    if bytes == [] || bytes[0] == 0 then [] else [bytes[0]] + CString(bytes[1..])
  }

  predicate FrameMatches(c: Case, pad: Padding, index: nat, f: FrameFiles)
    requires FrameEncodable(c, index)
  {
    && Readable(f.aad) && Readable(f.plaintext) && Readable(f.ciphertext) && Readable(f.tag)
    && f.aad.value == Aad(c, index)
    && f.plaintext.value == Plaintext(c, pad, index)
    && |f.ciphertext.value| == |f.plaintext.value| + OVERHEAD
    && CString(f.tag.value) == TagText(c, index)
    && (index < c.count ==> Readable(f.seed) && f.seed.value == PaddingSeed(c.id, index))
  }

  predicate FrameOpens<S>(cipher: Cipher<S>, s: S, tag: Tag, f: FrameFiles) {
    && f.aad.Some? && f.plaintext.Some? && f.ciphertext.Some?
    && var pulled := cipher.pull(s, f.ciphertext.value, f.aad.value);
       pulled.Some? && pulled.value.plaintext == f.plaintext.value && pulled.value.tag == tag
  }

  function NextState<S>(cipher: Cipher<S>, s: S, f: FrameFiles): Option<S> {
    if f.aad.None? || f.ciphertext.None? then None
    else
      var pulled := cipher.pull(s, f.ciphertext.value, f.aad.value);
      if pulled.None? then None else Some(pulled.value.state)
  }

  // The checker's stream state after n frames; None once one does not open.
  function PullState<S>(cipher: Cipher<S>, s0: S, files: nat -> FrameFiles, n: nat): Option<S> {
    if n == 0 then Some(s0)
    else
      var s := PullState(cipher, s0, files, n - 1);
      if s.None? then None else NextState(cipher, s.value, files(n - 1))
  }

  predicate FramePasses<S>(cipher: Cipher<S>, s: S, c: Case, pad: Padding, index: nat, f: FrameFiles) {
    FrameEncodable(c, index) && FrameMatches(c, pad, index, f) && FrameOpens(cipher, s, TagOf(c, index), f)
  }

  // The frame of this index passes when its turn comes.
  predicate PassesInTurn<S>(cipher: Cipher<S>, s0: S, c: Case, pad: Padding, files: nat -> FrameFiles, i: nat) {
    PullState(cipher, s0, files, i).Some?
    && FramePasses(cipher, PullState(cipher, s0, files, i).value, c, pad, i, files(i))
  }

  // Frames 0 to count - 1 are the messages and frame count the footer, opened in that order by
  // one stream.
  ghost predicate Accepted<S(!new)>(cipher: Cipher<S>, s0: S, c: Case, pad: Padding, files: nat -> FrameFiles) {
    forall i :: 0 <= i <= c.count ==> PassesInTurn(cipher, s0, c, pad, files, i)
  }

  // One turn of the frame loop.
  method CheckFrame<S(!new)>(cipher: Cipher<S>, stream: S, c: Case, pad: Padding, index: nat, f: FrameFiles)
      returns (valid: bool, next: S)
    requires c.size <= U64_MAX && c.count <= U64_MAX && index <= c.count && PaddingLaw(pad)
    ensures valid <==> FramePasses(cipher, stream, c, pad, index, f)
    ensures valid ==> Some(next) == NextState(cipher, stream, f)
  {
    hide AadBytes, FooterBytes, CString, MessagePlaintext, PaddingLaw, PaddingSeed;
    valid, next := false, stream;
    var isFinal := index == c.count;
    if !Readable(f.aad) || !Readable(f.plaintext) || !Readable(f.ciphertext) || !Readable(f.tag) { return; }
    var buffer := new byte[AAD_MAX];
    var code, length := BuildAad(c.headerHash, index, if isFinal then FINAL_KIND else MESSAGE_KIND, c.count, buffer);
    if code != 0 { return; }
    if f.aad.value != buffer[..length] { return; }
    if |f.ciphertext.value| != |f.plaintext.value| + OVERHEAD { return; }
    if CString(f.tag.value) != (if isFinal then FINAL_TEXT else MESSAGE_TEXT) { return; }
    var pulled := cipher.pull(stream, f.ciphertext.value, f.aad.value);
    if pulled.None? || pulled.value.plaintext != f.plaintext.value { return; }
    if pulled.value.tag != (if isFinal then Final else Message) { return; }
    if !isFinal {
      PlaintextLength(c, pad, index);
      if |f.plaintext.value| != CHUNK || !Readable(f.seed) || |f.seed.value| != 32 { return; }
      if f.seed.value != PaddingSeed(c.id, index) { return; }
      if f.plaintext.value != MessagePlaintext(c, pad, index) { return; }
    } else {
      var output := new byte[FINAL_MAX];
      var finalLength;
      code, finalLength := BuildFinalPlaintext(c.headerHash, c.count, c.size, c.logicalHash, output);
      if code != 0 { return; }
      if f.plaintext.value != output[..finalLength] { return; }
    }
    return true, pulled.value.state;
  }

  // The checker accepts exactly the directories whose frames are these.
  method CheckFrames<S(!new)>(cipher: Cipher<S>, s0: S, c: Case, pad: Padding, files: nat -> FrameFiles)
      returns (accepted: bool)
    requires c.size <= U64_MAX && c.count <= U64_MAX && PaddingLaw(pad)
    ensures accepted <==> Accepted(cipher, s0, c, pad, files)
  {
    hide PassesInTurn, PullState, FramePasses, NextState;
    var stream := s0;
    var index := 0;
    FirstState(cipher, s0, files);
    while index <= c.count
      invariant 0 <= index <= c.count + 1
      invariant PullState(cipher, s0, files, index) == Some(stream)
      invariant forall i :: 0 <= i < index ==> PassesInTurn(cipher, s0, c, pad, files, i)
    {
      var valid, next := CheckFrame(cipher, stream, c, pad, index, files(index));
      Turn(cipher, s0, c, pad, files, index, stream);
      if !valid { return false; }
      stream := next;
      index := index + 1;
    }
    return true;
  }

  lemma FirstState<S>(cipher: Cipher<S>, s0: S, files: nat -> FrameFiles)
    ensures PullState(cipher, s0, files, 0) == Some(s0)
  {
  }

  lemma Turn<S>(cipher: Cipher<S>, s0: S, c: Case, pad: Padding, files: nat -> FrameFiles, i: nat, s: S)
    requires PullState(cipher, s0, files, i) == Some(s)
    ensures PassesInTurn(cipher, s0, c, pad, files, i) <==> FramePasses(cipher, s, c, pad, i, files(i))
    ensures PullState(cipher, s0, files, i + 1) == NextState(cipher, s, files(i))
  {
  }

  /* ---------- the two programs against each other ---------- */

  function Generated<S>(cipher: Cipher<S>, s0: S, c: Case, pad: Padding): nat -> FrameFiles
    requires Encodable(c)
  {
    (i: nat) => if i <= c.count then GeneratedFrame(cipher, s0, c, pad, i)
                else FrameFiles(None, None, None, None, None)
  }

  lemma CipherAt<S(!new)>(cipher: Cipher<S>, s: S, m: Bytes, a: Bytes, t: Tag)
    requires CipherLaw(cipher)
    ensures var pushed := cipher.push(s, m, a, t);
            |pushed.ciphertext| == |m| + OVERHEAD
            && cipher.pull(s, pushed.ciphertext, a) == Some(Pulled(pushed.state, m, t))
  {
  }

  lemma TextsAreStrings(c: Case, index: nat)
    ensures CString(TagText(c, index)) == TagText(c, index) && 0 < |TagText(c, index)| < MAX_FILE
  {
    CStringOf(TagText(c, index));
  }

  lemma {:induction false} CStringOf(s: Bytes)
    requires forall i :: 0 <= i < |s| ==> s[i] != 0
    ensures CString(s) == s
  {
    if s != [] { CStringOf(s[1..]); }
  }

  lemma {:induction false} StatesAgree<S(!new)>(cipher: Cipher<S>, s0: S, c: Case, pad: Padding, n: nat)
    requires CipherLaw(cipher) && Encodable(c) && n <= c.count + 1
    ensures PullState(cipher, s0, Generated(cipher, s0, c, pad), n) == Some(StateAfter(cipher, s0, c, pad, n))
  {
    hide CipherLaw, Aad, Plaintext;
    if n > 0 {
      StatesAgree(cipher, s0, c, pad, n - 1);
      CipherAt(cipher, StateAfter(cipher, s0, c, pad, n - 1), Plaintext(c, pad, n - 1), Aad(c, n - 1), TagOf(c, n - 1));
    }
  }

  // The checker accepts whatever the generator writes.
  lemma GeneratedIsAccepted<S(!new)>(cipher: Cipher<S>, s0: S, c: Case, pad: Padding)
    requires CipherLaw(cipher) && PaddingLaw(pad) && Encodable(c)
    ensures Accepted(cipher, s0, c, pad, Generated(cipher, s0, c, pad))
  {
    var files := Generated(cipher, s0, c, pad);
    forall i | 0 <= i <= c.count
      ensures PassesInTurn(cipher, s0, c, pad, files, i)
    {
      hide FramePasses;
      StatesAgree(cipher, s0, c, pad, i);
      GeneratedFramePasses(cipher, s0, c, pad, i);
    }
  }

  lemma GeneratedFramePasses<S(!new)>(cipher: Cipher<S>, s0: S, c: Case, pad: Padding, i: nat)
    requires CipherLaw(cipher) && PaddingLaw(pad) && Encodable(c) && i <= c.count
    ensures FramePasses(cipher, StateAfter(cipher, s0, c, pad, i), c, pad, i, GeneratedFrame(cipher, s0, c, pad, i))
  {
    hide CipherLaw, PaddingLaw, Plaintext, CString, StateAfter, AadBytes;
    var s := StateAfter(cipher, s0, c, pad, i);
    CipherAt(cipher, s, Plaintext(c, pad, i), Aad(c, i), TagOf(c, i));
    PlaintextLength(c, pad, i);
    TextsAreStrings(c, i);
  }

  lemma AcceptedAt<S(!new)>(cipher: Cipher<S>, s0: S, c: Case, pad: Padding, files: nat -> FrameFiles, i: nat)
    requires Accepted(cipher, s0, c, pad, files) && i <= c.count
    ensures Encodable(c) && FrameMatches(c, pad, i, files(i))
  {
    assert PassesInTurn(cipher, s0, c, pad, files, c.count);
    assert PassesInTurn(cipher, s0, c, pad, files, i);
  }

  // Accepted frames say in canonical CBOR which message of how many they are, and the last one
  // carries the footer for exactly this count, size and pair of hashes.
  lemma AcceptedFramesDecode<S(!new)>(cipher: Cipher<S>, s0: S, c: Case, pad: Padding, files: nat -> FrameFiles, i: nat)
    requires Accepted(cipher, s0, c, pad, files) && i <= c.count
    ensures var kind := if i == c.count then FINAL_KIND else MESSAGE_KIND;
            var aad := files(i).aad.GetOr([]);
            ManifestCbor.Decode(aad, |FRAME_DOMAIN| + 1)
              == Ok(ManifestCbor.Decoded(AadBody(c.headerHash, i, kind, c.count), |aad|))
    ensures i == c.count ==>
              var footer := files(i).plaintext.GetOr([]);
              ManifestCbor.Decode(footer, 0)
                == Ok(ManifestCbor.Decoded(FooterBody(c.headerHash, c.count, c.size, c.logicalHash), |footer|))
  {
    AcceptedAt(cipher, s0, c, pad, files, i);
    var kind := if i == c.count then FINAL_KIND else MESSAGE_KIND;
    AadIsCanonical(c.headerHash, i, kind, c.count);
    if i == c.count {
      FooterIsCanonical(c.headerHash, c.count, c.size, c.logicalHash);
    }
    hide AadBytes, FooterBytes, ManifestCbor.Encode, ManifestCbor.Decode, PullState;
    WholeEncodingDecodes(FRAME_DOMAIN + [0], AadBody(c.headerHash, i, kind, c.count));
    if i == c.count {
      var footer := files(i).plaintext.GetOr([]);
      assert [] + footer == footer;
      WholeEncodingDecodes([], FooterBody(c.headerHash, c.count, c.size, c.logicalHash));
    }
  }

  lemma WholeEncodingDecodes(prefix: Bytes, v: ManifestCbor.Value)
    requires ManifestCbor.Encode(v).Ok?
    ensures var data := prefix + ManifestCbor.Encode(v).value;
            ManifestCbor.Decode(data, |prefix|) == Ok(ManifestCbor.Decoded(v, |data|))
  {
    var data := prefix + ManifestCbor.Encode(v).value;
    assert data[|prefix|..|data|] == ManifestCbor.Encode(v).value;
    ManifestCbor.DecodeEncode(v, data, |prefix|);
  }

  // Frames cannot change places: with two of them exchanged the checker refuses.
  lemma ExchangedFramesRefused<S(!new)>(
      cipher: Cipher<S>, s0: S, c: Case, pad: Padding, files: nat -> FrameFiles,
      exchanged: nat -> FrameFiles, i: nat, j: nat)
    requires Accepted(cipher, s0, c, pad, files) && i < j <= c.count && exchanged(i) == files(j)
    ensures !Accepted(cipher, s0, c, pad, exchanged)
  {
    AcceptedAt(cipher, s0, c, pad, files, j);
    if Accepted(cipher, s0, c, pad, exchanged) {
      AcceptedAt(cipher, s0, c, pad, exchanged, i);
      AadInjective(c.headerHash, i, MESSAGE_KIND, c.count,
                   c.headerHash, j, if j == c.count then FINAL_KIND else MESSAGE_KIND, c.count);
    }
  }

  /* ---------- the slices ---------- */

  // What the first n frames carry of a snapshot, in order.
  function Slices(snapshot: Bytes, n: nat): Bytes {
    if n == 0 then []
    else
      var (start, logical) := ((n - 1) * CHUNK, LogicalInFrame(|snapshot|, n - 1));
      Slices(snapshot, n - 1) + (if logical == 0 then [] else snapshot[start..start + logical])
  }

  lemma {:induction false} SlicesSoFar(snapshot: Bytes, n: nat)
    ensures Slices(snapshot, n) == snapshot[..if |snapshot| <= n * CHUNK then |snapshot| else n * CHUNK]
  {
    if n > 0 {
      SlicesSoFar(snapshot, n - 1);
    }
  }

  // The slices of any snapshot, put together, are that snapshot, each byte once and in order,
  // exactly when the chunks have room for it.
  lemma SlicesPartitionSnapshot(snapshot: Bytes, n: nat)
    ensures Slices(snapshot, n) == snapshot <==> |snapshot| <= n * CHUNK
  {
    SlicesSoFar(snapshot, n);
  }

  // What the messages of the first n frames hold before their padding.
  function Carried(c: Case, pad: Padding, n: nat): Bytes {
    if n == 0 then []
    else
      var logical := LogicalInFrame(c.size, n - 1);
      Carried(c, pad, n - 1)
        + (if logical <= |MessagePlaintext(c, pad, n - 1)| then MessagePlaintext(c, pad, n - 1)[..logical] else [])
  }

  // They hold the slices of the snapshot these programs make up, which is all zeros; so they hold
  // all of it exactly when the chunks have room for it.
  lemma {:induction false} MessagesCarrySlices(c: Case, pad: Padding, n: nat)
    ensures Carried(c, pad, n) == Slices(Zeros(c.size), n)
    ensures Carried(c, pad, n) == Zeros(c.size) <==> c.size <= n * CHUNK
  {
    SlicesPartitionSnapshot(Zeros(c.size), n);
    if n > 0 {
      MessagesCarrySlices(c, pad, n - 1);
      var (start, logical) := ((n - 1) * CHUNK, LogicalInFrame(c.size, n - 1));
      assert MessagePlaintext(c, pad, n - 1)[..logical] == Zeros(logical);
      if logical > 0 { assert Zeros(c.size)[start..start + logical] == Zeros(logical); }
    }
  }
}
