/**
 * Ed25519 as the manifest oracle signs and verifies. The curve is abstract: its addition and
 * the square-root step of point decoding are parameters, and the facts used of them are the
 * hypotheses collected in Laws. Encodings, clamping, sign bits and scalars are concrete.
 */
module Ed25519 {
  import opened Bytes

  datatype Point = Point(x: int, y: int)
  type Digest512 = d: Bytes | |d| == 64 witness seq(64, i => 0)
  type Sha512 = Bytes -> Digest512

  const Q: int := 0x7fff_ffff_ffff_ffff_ffff_ffff_ffff_ffff_ffff_ffff_ffff_ffff_ffff_ffff_ffff_ffed
  const L: int := 0x1000_0000_0000_0000_0000_0000_0000_0000_14de_f9de_a2f7_9cd6_5812_631a_5cf5_d3ed
  const TWO_254: int := 0x4000_0000_0000_0000_0000_0000_0000_0000_0000_0000_0000_0000_0000_0000_0000_0000
  const TWO_255: int := 0x8000_0000_0000_0000_0000_0000_0000_0000_0000_0000_0000_0000_0000_0000_0000_0000

  const IDENTITY: Point := Point(0, 1)

  datatype Curve = Curve(
    base: Point,
    add: (Point, Point) -> Point,
    // the square root computed from y, before the even one is chosen; None where it raises
    root: int -> Option<int>,
    on: Point -> bool)

  // n-fold addition.
  function Multiple(c: Curve, p: Point, n: nat): Point {
    if n == 0 then IDENTITY else c.add(Multiple(c, p, n - 1), p)
  }

  ghost predicate Group(c: Curve) {
    && c.on(IDENTITY) && c.on(c.base)
    && (forall p, q :: c.on(p) && c.on(q) ==> c.on(c.add(p, q)))
    && (forall p, q, r :: c.on(p) && c.on(q) && c.on(r) ==> c.add(c.add(p, q), r) == c.add(p, c.add(q, r)))
    && (forall p :: c.on(p) ==> c.add(IDENTITY, p) == p && c.add(p, IDENTITY) == p)
  }

  // The base point has order exactly L.
  ghost predicate BaseOrder(c: Curve) {
    forall n: nat :: Multiple(c, c.base, n) == IDENTITY <==> n % L == 0
  }

  // Coordinates are reduced, and y determines x up to sign.
  ghost predicate Coordinates(c: Curve) {
    && (forall p :: c.on(p) ==> 0 <= p.x < Q && 0 <= p.y < Q)
    && (forall y :: c.root(y).Some? ==> 0 <= c.root(y).value < Q)
    && (forall p :: c.on(p) ==> c.root(p.y) == Some(p.x) || c.root(p.y) == Some((Q - p.x) % Q))
  }

  ghost predicate Laws(c: Curve) {
    Group(c) && BaseOrder(c) && Coordinates(c)
  }

  // The hypotheses do not contradict each other: the integers modulo L, written as points, meet them.
  function Modular(): Curve {
    Curve(
      Point(0, 2),
      (p: Point, q: Point) => Point(0, (p.y + q.y - 2) % L + 1),
      (y: int) => Some(0),
      (p: Point) => p.x == 0 && 1 <= p.y <= L)
  }

  lemma SumsModulo(a: int, b: int, c: int)
    ensures ((a + b) % L + c) % L == (a + b + c) % L && (a + (b + c) % L) % L == (a + b + c) % L
  {
    var (q, r) := ((a + b) / L, (b + c) / L);
    SameRemainder((a + b) % L + c, q, a + b + c);
    SameRemainder(a + (b + c) % L, r, a + b + c);
  }

  lemma SameRemainder(x: int, q: int, y: int)
    requires y == x + q * L
    ensures x % L == y % L
  {
  }

  lemma {:induction false} ModularMultiple(n: nat)
    ensures Multiple(Modular(), Modular().base, n) == Point(0, n % L + 1)
  {
    if n > 0 {
      ModularMultiple(n - 1);
      SumsModulo(n - 1, 0, 1);
    }
  }

  lemma ModularAssociative(p: Point, q: Point, r: Point)
    requires Modular().on(p) && Modular().on(q) && Modular().on(r)
    ensures var add := Modular().add; add(add(p, q), r) == add(p, add(q, r))
  {
    SumsModulo(p.y - 1, q.y - 1, r.y - 1);
    var (pq, qr) := ((p.y + q.y - 2) % L, (q.y + r.y - 2) % L);
    assert p.y - 1 + (q.y - 1) == p.y + q.y - 2 && q.y - 1 + (r.y - 1) == q.y + r.y - 2;
    assert pq + 1 + r.y - 2 == pq + (r.y - 1) && p.y + (qr + 1) - 2 == p.y - 1 + qr;
  }

  lemma ModularClosed(p: Point, q: Point)
    requires Modular().on(p) && Modular().on(q)
    ensures Modular().on(Modular().add(p, q))
  {
  }

  lemma ModularNeutral(p: Point)
    requires Modular().on(p)
    ensures Modular().add(IDENTITY, p) == p && Modular().add(p, IDENTITY) == p
  {
  }

  lemma ModularGroup()
    ensures Group(Modular())
  {
    var c := Modular();
    assert c.on(IDENTITY) && c.on(c.base);
    hide Modular;
    forall p, q | c.on(p) && c.on(q) ensures c.on(c.add(p, q)) { ModularClosed(p, q); }
    forall p, q, r | c.on(p) && c.on(q) && c.on(r) ensures c.add(c.add(p, q), r) == c.add(p, c.add(q, r)) {
      ModularAssociative(p, q, r);
    }
    forall p | c.on(p) ensures c.add(IDENTITY, p) == p && c.add(p, IDENTITY) == p { ModularNeutral(p); }
  }

  lemma ModularOrder()
    ensures BaseOrder(Modular())
  {
    var c := Modular();
    hide Modular, Multiple;
    forall n: nat ensures Multiple(c, c.base, n) == IDENTITY <==> n % L == 0 { ModularMultiple(n); }
  }

  lemma LawsAreConsistent()
    ensures Laws(Modular())
  {
    ModularGroup();
    ModularOrder();
    hide Group, BaseOrder;
  }

  lemma Closed(c: Curve, p: Point, q: Point)
    requires Group(c) && c.on(p) && c.on(q)
    ensures c.on(c.add(p, q))
  {
  }

  lemma Associative(c: Curve, p: Point, q: Point, r: Point)
    requires Group(c) && c.on(p) && c.on(q) && c.on(r)
    ensures c.add(c.add(p, q), r) == c.add(p, c.add(q, r))
  {
  }

  lemma Neutral(c: Curve, p: Point)
    requires Group(c) && c.on(p)
    ensures c.on(IDENTITY) && c.add(IDENTITY, p) == p && c.add(p, IDENTITY) == p
  {
  }

  lemma BaseOn(c: Curve)
    requires Group(c)
    ensures c.on(c.base) && c.on(IDENTITY)
  {
  }

  lemma OrderOfBase(c: Curve, n: nat)
    requires BaseOrder(c)
    ensures Multiple(c, c.base, n) == IDENTITY <==> n % L == 0
  {
  }

  /* ---------- double-and-add ---------- */

  function DoubleAndAdd(c: Curve, result: Point, addend: Point, scalar: nat): Point
    decreases scalar
  {
    if scalar == 0 then result
    else DoubleAndAdd(c, if scalar % 2 == 1 then c.add(result, addend) else result,
                      c.add(addend, addend), scalar / 2)
  }

  function ScalarMultiply(c: Curve, p: Point, scalar: nat): Point {
    DoubleAndAdd(c, IDENTITY, p, scalar)
  }

  lemma {:induction false} MultipleOn(c: Curve, p: Point, n: nat)
    requires Group(c) && c.on(p)
    ensures c.on(Multiple(c, p, n))
  {
    hide Group;
    BaseOn(c);
    if n > 0 {
      MultipleOn(c, p, n - 1);
      Closed(c, Multiple(c, p, n - 1), p);
    }
  }

  lemma {:induction false} MultipleAdds(c: Curve, p: Point, m: nat, n: nat)
    requires Group(c) && c.on(p)
    ensures c.add(Multiple(c, p, m), Multiple(c, p, n)) == Multiple(c, p, m + n)
    decreases n
  {
    hide Group;
    MultipleOn(c, p, m);
    if n == 0 {
      Neutral(c, Multiple(c, p, m));
    } else {
      MultipleOn(c, p, n - 1);
      MultipleAdds(c, p, m, n - 1);
      Associative(c, Multiple(c, p, m), Multiple(c, p, n - 1), p);
      assert m + n - 1 == m + (n - 1);
    }
  }

  lemma {:induction false} MultipleOfMultiple(c: Curve, p: Point, m: nat, n: nat)
    requires Group(c) && c.on(p)
    ensures Multiple(c, Multiple(c, p, m), n) == Multiple(c, p, m * n)
    decreases n
  {
    hide Group;
    if n > 0 {
      var before: nat := m * (n - 1);
      MultipleOfMultiple(c, p, m, n - 1);
      MultipleAdds(c, p, before, m);
      assert before + m == m * n;
    }
  }

  lemma OneAndTwo(c: Curve, p: Point)
    requires Group(c) && c.on(p)
    ensures Multiple(c, p, 1) == p && Multiple(c, p, 2) == c.add(p, p)
  {
    Neutral(c, p);
    assert Multiple(c, p, 1) == c.add(Multiple(c, p, 0), p);
    assert Multiple(c, p, 2) == c.add(Multiple(c, p, 1), p);
  }

  lemma {:induction false} DoubleAndAddIsMultiple(c: Curve, result: Point, addend: Point, scalar: nat)
    requires Group(c) && c.on(result) && c.on(addend)
    ensures DoubleAndAdd(c, result, addend, scalar) == c.add(result, Multiple(c, addend, scalar))
    decreases scalar
  {
    hide Group;
    Neutral(c, result);
    if scalar > 0 {
      var half: nat := scalar / 2;
      Closed(c, result, addend);
      Closed(c, addend, addend);
      OneAndTwo(c, addend);
      MultipleOfMultiple(c, addend, 2, half);
      MultipleOn(c, addend, 2 * half);
      if scalar % 2 == 1 {
        DoubleAndAddIsMultiple(c, c.add(result, addend), c.add(addend, addend), half);
        Associative(c, result, addend, Multiple(c, addend, 2 * half));
        MultipleAdds(c, addend, 1, 2 * half);
        assert scalar == 1 + 2 * half;
      } else {
        DoubleAndAddIsMultiple(c, result, c.add(addend, addend), half);
        assert scalar == 2 * half;
      }
    }
  }

  // Double-and-add computes repeated addition, for every scalar.
  lemma ScalarMultiplyIsMultiple(c: Curve, p: Point, n: nat)
    requires Group(c) && c.on(p)
    ensures ScalarMultiply(c, p, n) == Multiple(c, p, n)
  {
    hide Group;
    BaseOn(c);
    DoubleAndAddIsMultiple(c, IDENTITY, p, n);
    MultipleOn(c, p, n);
    Neutral(c, Multiple(c, p, n));
  }

  // The loop as written.
  method ScalarMultiplyLoop(c: Curve, point: Point, scalar: nat) returns (result: Point)
    ensures result == ScalarMultiply(c, point, scalar)
    ensures Group(c) && c.on(point) ==> result == Multiple(c, point, scalar)
  {
    hide Group;
    result := IDENTITY;
    var addend := point;
    var rest := scalar;
    while rest != 0
      invariant DoubleAndAdd(c, result, addend, rest) == ScalarMultiply(c, point, scalar)
      decreases rest
    {
      if rest % 2 == 1 {
        result := c.add(result, addend);
      }
      addend := c.add(addend, addend);
      rest := rest / 2;
    }
    if Group(c) && c.on(point) {
      ScalarMultiplyIsMultiple(c, point, scalar);
    }
  }

  // Scalars may be reduced modulo the base order.
  lemma BaseMultipleReduces(c: Curve, n: nat)
    requires Group(c) && BaseOrder(c)
    ensures Multiple(c, c.base, n) == Multiple(c, c.base, n % L)
  {
    hide Group, BaseOrder;
    BaseOn(c);
    var q: nat := n / L;
    var r: nat := n % L;
    var whole: nat := L * q;
    OrderOfBase(c, whole);
    MultipleAdds(c, c.base, whole, r);
    MultipleOn(c, c.base, r);
    Neutral(c, Multiple(c, c.base, r));
    assert whole + r == n;
  }

  /* ---------- point encoding ---------- */

  function EncodePoint(p: Point): (s: Bytes)
    requires 0 <= p.y < TWO_255
    ensures |s| == 32
  {
    ToLittle(p.y + (p.x % 2) * TWO_255, 32)
  }

  // The recovered x is the even one of the two roots.
  function RecoverX(c: Curve, y: int): Option<int> {
    var r := c.root(y);
    if r.Some? && r.value % 2 == 1 then Some(Q - r.value) else r
  }

  function DecodePoint(c: Curve, encoded: Bytes): Option<Point> {
    if |encoded| != 32 then None
    else
      var integer := FromLittle(encoded);
      var sign := integer / TWO_255;
      var y := integer % TWO_255;
      if y >= Q then None
      else
        var recovered := RecoverX(c, y);
        if recovered.None? then None
        else
          var x := if recovered.value % 2 != sign then Q - recovered.value else recovered.value;
          if x == 0 && sign != 0 then None
          else
            var point := Point(x, y);
            if ScalarMultiply(c, point, 8) == IDENTITY || ScalarMultiply(c, point, L) != IDENTITY then None
            else Some(point)
  }

  lemma Pow256Of32()
    ensures Pow256(32) == 2 * TWO_255 && Pow256(31) * 128 == TWO_255 && Pow256(31) * 64 == TWO_254
  {
    assert Pow256(8) == 0x1_0000_0000_0000_0000;
    assert Pow256(16) == 0x1_0000_0000_0000_0000_0000_0000_0000_0000;
    assert Pow256(24) == 0x1_0000_0000_0000_0000_0000_0000_0000_0000_0000_0000_0000_0000;
  }

  lemma EncodedPointParts(p: Point)
    requires 0 <= p.y < TWO_255
    ensures FromLittle(EncodePoint(p)) / TWO_255 == p.x % 2
    ensures FromLittle(EncodePoint(p)) % TWO_255 == p.y
  {
    hide ToLittle, FromLittle;
    Pow256Of32();
    LittleRoundTrip(p.y + (p.x % 2) * TWO_255, 32);
  }

  // The sign bit tells the two roots apart.
  lemma RecoveredX(c: Curve, p: Point)
    requires Coordinates(c) && c.on(p)
    ensures 0 <= p.x < Q && 0 <= p.y < Q
    ensures RecoverX(c, p.y).Some?
    ensures var x := RecoverX(c, p.y).value;
            (if x % 2 != p.x % 2 then Q - x else x) == p.x
  {
  }

  // An encoded curve point decodes to itself, unless the order checks refuse it.
  lemma DecodeEncodePoint(c: Curve, p: Point)
    requires Group(c) && Coordinates(c) && c.on(p)
    ensures 0 <= p.y < Q
    ensures DecodePoint(c, EncodePoint(p)) ==
            if Multiple(c, p, 8) == IDENTITY || Multiple(c, p, L) != IDENTITY then None else Some(p)
  {
    hide Group, Coordinates, FromLittle, ToLittle, Multiple, ScalarMultiply, RecoverX;
    RecoveredX(c, p);
    EncodedPointParts(p);
    ScalarMultiplyIsMultiple(c, p, 8);
    ScalarMultiplyIsMultiple(c, p, L);
  }

  // The test "x is zero with the sign bit set" never fires: the recovered root is even, so a set
  // sign bit has already replaced it by Q minus it, which is positive.
  lemma SignOfZeroTestNeverFires(c: Curve, y: int)
    requires forall v :: c.root(v).Some? ==> 0 <= c.root(v).value < Q
    requires RecoverX(c, y).Some?
    ensures var recovered := RecoverX(c, y).value;
            recovered % 2 == 0 && (if recovered % 2 != 1 then Q - recovered else recovered) != 0
  {
  }

  // Facts of the addition formula: only residues matter, and a point with x = 0 doubles to the identity.
  ghost predicate ResidueAddition(c: Curve) {
    && (forall p, q :: c.add(p, q) == c.add(Point(p.x % Q, p.y), Point(q.x % Q, q.y)))
    && (forall y :: c.root(y) == Some(0) ==> c.add(Point(0, y), Point(0, y)) == IDENTITY)
    && c.add(IDENTITY, IDENTITY) == IDENTITY
  }

  lemma EightTimesOrderTwo(c: Curve, p: Point)
    requires c.add(p, p) == IDENTITY && c.add(IDENTITY, IDENTITY) == IDENTITY
    ensures ScalarMultiply(c, p, 8) == IDENTITY
  {
    assert DoubleAndAdd(c, IDENTITY, IDENTITY, 1) == DoubleAndAdd(c, IDENTITY, IDENTITY, 0);
    assert DoubleAndAdd(c, IDENTITY, IDENTITY, 2) == DoubleAndAdd(c, IDENTITY, IDENTITY, 1);
    assert DoubleAndAdd(c, IDENTITY, IDENTITY, 4) == DoubleAndAdd(c, IDENTITY, IDENTITY, 2);
    assert DoubleAndAdd(c, IDENTITY, p, 8) == DoubleAndAdd(c, IDENTITY, IDENTITY, 4);
  }

  // A zero x with the sign bit set is refused all the same, by the small-order test.
  lemma NegativeZeroIsSmallOrder(c: Curve, encoded: Bytes)
    requires ResidueAddition(c)
    requires |encoded| == 32 && FromLittle(encoded) / TWO_255 == 1
    requires c.root(FromLittle(encoded) % TWO_255) == Some(0)
    ensures DecodePoint(c, encoded) == None
  {
    hide FromLittle, ScalarMultiply, ResidueAddition;
    var y := FromLittle(encoded) % TWO_255;
    ZeroDoubles(c, y);
    EightTimesOrderTwo(c, Point(Q, y));
  }

  lemma ZeroDoubles(c: Curve, y: int)
    requires ResidueAddition(c) && c.root(y) == Some(0)
    ensures c.add(Point(Q, y), Point(Q, y)) == IDENTITY && c.add(IDENTITY, IDENTITY) == IDENTITY
  {
    assert Q % Q == 0;
    assert c.add(Point(Q, y), Point(Q, y)) == c.add(Point(Q % Q, y), Point(Q % Q, y));
  }

  /* ---------- clamping ---------- */

  function Clamp(s: Bytes): (r: Bytes)
    requires |s| == 32
    ensures |r| == 32
  {
    s[0 := s[0] / 8 * 8][31 := s[31] % 64 + 64]
  }

  // The arithmetic of Clamp is the masking of the code.
  lemma ClampMasks(b: bv8)
    ensures (b & 248) as int == (b as int) / 8 * 8
    ensures ((b & 63) | 64) as int == (b as int) % 64 + 64
  {
    assert b & 248 == b / 8 * 8;
    assert (b & 63) | 64 == b % 64 + 64;
  }

  lemma {:induction false} LittleAppend(s: Bytes, b: byte)
    ensures FromLittle(s + [b]) == FromLittle(s) + b * Pow256(|s|)
  {
    if s != [] {
      LittleAppend(s[1..], b);
      assert (s + [b])[1..] == s[1..] + [b];
    }
  }

  function SecretScalar(sha: Sha512, seed: Bytes): nat {
    FromLittle(Clamp(sha(seed)[..32]))
  }

  lemma LastByteRange(s: Bytes)
    requires |s| == 32
    ensures s[31] * Pow256(31) <= FromLittle(s) < (s[31] + 1) * Pow256(31)
  {
    hide FromLittle, Pow256;
    LittleAppend(s[..31], s[31]);
    LittleOfBytes(s[..31]);
    assert s == s[..31] + [s[31]];
  }

  lemma LowByteModEight(k: int, rest: int)
    ensures (k * 8 + 256 * rest) % 8 == 0
  {
    var t := k + 32 * rest;
    assert k * 8 + 256 * rest == t * 8;
  }

  lemma ClampedRange(s: Bytes)
    requires |s| == 32
    ensures TWO_254 <= FromLittle(Clamp(s)) < TWO_255 && FromLittle(Clamp(s)) % 8 == 0
  {
    var r := Clamp(s);
    LastByteRange(r);
    var rest := FromLittle(r[1..]);
    assert FromLittle(r) == r[0] + 256 * rest;
    hide FromLittle, Pow256;
    LowByteModEight(s[0] / 8, rest);
    Pow256Of32();
    var unit := Pow256(31);
    assert 64 <= r[31] <= 127;
    assert 64 * unit <= r[31] * unit && (r[31] + 1) * unit <= 128 * unit;
  }

  lemma NotMultipleOfL(k: nat)
    requires TWO_254 <= k < TWO_255 && k % 8 == 0
    ensures k % L != 0 && (8 * k) % L != 0
  {
  }

  // No clamped scalar is a multiple of L, nor is 8 times one: it is a multiple of 8 below
  // 2^255 < 8L, and not zero.
  lemma ClampedIsNotMultipleOfL(s: Bytes)
    requires |s| == 32
    ensures FromLittle(Clamp(s)) % L != 0 && (8 * FromLittle(Clamp(s))) % L != 0
  {
    ClampedRange(s);
    hide FromLittle, Clamp;
    NotMultipleOfL(FromLittle(Clamp(s)));
  }

  /* ---------- signing and verifying ---------- */

  function BasePoint(c: Curve, n: nat): Point {
    ScalarMultiply(c, c.base, n)
  }

  lemma BasePointOn(c: Curve, n: nat)
    requires Laws(c)
    ensures BasePoint(c, n) == Multiple(c, c.base, n) && c.on(BasePoint(c, n))
    ensures 0 <= BasePoint(c, n).y < Q
  {
    BaseOn(c);
    ScalarMultiplyIsMultiple(c, c.base, n);
    MultipleOn(c, c.base, n);
    InField(c, Multiple(c, c.base, n));
  }

  lemma InField(c: Curve, p: Point)
    requires Coordinates(c) && c.on(p)
    ensures 0 <= p.x < Q && 0 <= p.y < Q
  {
  }

  function Nonce(sha: Sha512, seed: Bytes, message: Bytes): nat {
    FromLittle(sha(sha(seed)[32..] + message)) % L
  }

  function Challenge(sha: Sha512, encodedR: Bytes, publicKey: Bytes, message: Bytes): nat {
    FromLittle(sha(encodedR + publicKey + message)) % L
  }

  ghost function PublicKey(c: Curve, sha: Sha512, seed: Bytes): (key: Bytes)
    requires Laws(c)
    ensures |key| == 32
  {
    BasePointOn(c, SecretScalar(sha, seed));
    EncodePoint(BasePoint(c, SecretScalar(sha, seed)))
  }

  ghost function Sign(c: Curve, sha: Sha512, seed: Bytes, message: Bytes): (signature: Bytes)
    requires Laws(c)
    ensures |signature| == 64
  {
    var scalar := SecretScalar(sha, seed);
    var nonce := Nonce(sha, seed, message);
    BasePointOn(c, nonce);
    var encodedR := EncodePoint(BasePoint(c, nonce));
    var challenge := Challenge(sha, encodedR, PublicKey(c, sha, seed), message);
    encodedR + ToLittle((nonce + challenge * scalar) % L, 32)
  }

  function Verify(c: Curve, sha: Sha512, publicKey: Bytes, message: Bytes, signature: Bytes): bool {
    if |publicKey| != 32 || |signature| != 64 then false
    else
      var scalar := FromLittle(signature[32..]);
      if scalar >= L then false
      else
        var pointA := DecodePoint(c, publicKey);
        var pointR := DecodePoint(c, signature[..32]);
        if pointA.None? || pointR.None? then false
        else
          var challenge := Challenge(sha, signature[..32], publicKey, message);
          ScalarMultiply(c, c.base, scalar) == c.add(pointR.value, ScalarMultiply(c, pointA.value, challenge))
  }

  // A multiple of the base decodes from its encoding exactly when 8 times it is not the identity.
  lemma BasePointDecodes(c: Curve, n: nat)
    requires Laws(c)
    ensures 0 <= BasePoint(c, n).y < Q
    ensures DecodePoint(c, EncodePoint(BasePoint(c, n))) ==
            if (8 * n) % L == 0 then None else Some(BasePoint(c, n))
  {
    hide Group, Coordinates, BaseOrder, Multiple, DecodePoint, EncodePoint;
    BaseOn(c);
    BasePointOn(c, n);
    DecodeEncodePoint(c, BasePoint(c, n));
    MultipleOfMultiple(c, c.base, n, 8);
    MultipleOfMultiple(c, c.base, n, L);
    OrderOfBase(c, n * 8);
    OrderOfBase(c, n * L);
    MultipleOfL(n);
  }

  lemma MultipleOfL(n: nat)
    ensures (n * L) % L == 0 && n * 8 == 8 * n
  {
  }

  lemma NonceTimesEight(n: nat)
    requires n < L
    ensures (8 * n) % L == 0 <==> n == 0
  {
  }

  // The verification equation: [S]B = R + [h]A.
  lemma SignatureEquation(c: Curve, scalar: nat, nonce: nat, challenge: nat)
    requires Laws(c)
    ensures BasePoint(c, (nonce + challenge * scalar) % L)
         == c.add(BasePoint(c, nonce), ScalarMultiply(c, BasePoint(c, scalar), challenge))
  {
    hide Group, Coordinates, BaseOrder, Multiple;
    BaseOn(c);
    BasePointOn(c, scalar);
    BasePointOn(c, nonce);
    hide BasePoint;
    ScalarMultiplyIsMultiple(c, BasePoint(c, scalar), challenge);
    MultipleOfMultiple(c, c.base, scalar, challenge);
    var product: nat := scalar * challenge;
    MultipleAdds(c, c.base, nonce, product);
    assert product == challenge * scalar;
    BaseMultipleReduces(c, nonce + product);
    BasePointOn(c, (nonce + product) % L);
  }

  // Every signature verifies under its own public key, except when the nonce is zero modulo L,
  // and then it never does: the identity is refused as a small-order R.
  lemma OwnSignatureVerifies(c: Curve, sha: Sha512, seed: Bytes, message: Bytes)
    requires Laws(c)
    ensures Verify(c, sha, PublicKey(c, sha, seed), message, Sign(c, sha, seed, message))
       <==> Nonce(sha, seed, message) != 0
  {
    hide Laws, DecodePoint, EncodePoint, FromLittle, ToLittle, ScalarMultiply, Challenge, Clamp;
    var scalar := SecretScalar(sha, seed);
    var nonce := Nonce(sha, seed, message);
    var key := PublicKey(c, sha, seed);
    var signature := Sign(c, sha, seed, message);
    BasePointDecodes(c, nonce);
    BasePointDecodes(c, scalar);
    var encodedR := EncodePoint(BasePoint(c, nonce));
    var challenge: nat := Challenge(sha, encodedR, key, message);
    var s: nat := (nonce + challenge * scalar) % L;
    assert signature[..32] == encodedR && signature[32..] == ToLittle(s, 32);
    Pow256Of32();
    LittleRoundTrip(s, 32);
    ClampedIsNotMultipleOfL(sha(seed)[..32]);
    NonceTimesEight(nonce);
    SignatureEquation(c, scalar, nonce, challenge);
  }

  // Two scalars below L with one multiple of the base are equal.
  lemma BaseMultiplesDiffer(c: Curve, m: nat, n: nat)
    requires Group(c) && BaseOrder(c) && m <= n < L && Multiple(c, c.base, m) == Multiple(c, c.base, n)
    ensures m == n
  {
    var rest: nat := L - m;
    BaseOn(c);
    hide Multiple, Group, BaseOrder;
    MultipleAdds(c, c.base, m, rest);
    MultipleAdds(c, c.base, n, rest);
    OrderOfBase(c, m + rest);
    OrderOfBase(c, n + rest);
    PastOrder(n - m);
    assert m + rest == L && n + rest == L + (n - m);
  }

  lemma PastOrder(d: nat)
    requires d < L
    ensures (L + d) % L == d && L % L == 0
  {
  }

  // For one key, message and commitment at most one response verifies: the check of the scalar
  // against L leaves no second signature to be made from the first.
  lemma ResponseIsUnique(c: Curve, sha: Sha512, publicKey: Bytes, message: Bytes, s: Bytes, t: Bytes)
    requires Laws(c) && |s| == 64 && |t| == 64 && s[..32] == t[..32]
    requires Verify(c, sha, publicKey, message, s) && Verify(c, sha, publicKey, message, t)
    ensures s == t
  {
    var (m, n) := (FromLittle(s[32..]), FromLittle(t[32..]));
    BaseOn(c);
    ScalarMultiplyIsMultiple(c, c.base, m);
    ScalarMultiplyIsMultiple(c, c.base, n);
    assert ScalarMultiply(c, c.base, m) == ScalarMultiply(c, c.base, n);
    hide Verify, ScalarMultiply, Group, BaseOrder, Coordinates;
    if m <= n { BaseMultiplesDiffer(c, m, n); } else { BaseMultiplesDiffer(c, n, m); }
    LittleOfBytes(s[32..]);
    LittleOfBytes(t[32..]);
    assert s == s[..32] + s[32..] && t == t[..32] + t[32..];
  }
}
