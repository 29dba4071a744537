/**
 * The X25519 ladder of the protocol oracle. The group is abstract: a relation says which
 * projective pair stands for which element, and the facts used of it are that the ladder's
 * doubling and differential-addition formulas respect that relation. The formulas, the bit
 * loop, the deferred swaps, clamping and byte encodings are concrete.
 */
module X25519 {
  import opened Bits
  import opened Bytes
  import Ed25519

  const PRIME: int := Ed25519.Q
  const TWO_255: int := Ed25519.TWO_255
  const L: int := Ed25519.L

  // A projective x-coordinate X : Z.
  datatype Coord = Coord(x: int, z: int)

  datatype Group<!G> = Group(
    zero: G,
    add: (G, G) -> G,
    // the affine x-coordinate, with 0 for the neutral element
    affine: G -> int,
    // does this pair stand for this element?
    stands: (Coord, G) -> bool)

  /* ---------- the formulas of one ladder step ---------- */

  // (x2, z2) becomes its double
  function Double(p: Coord): Coord {
    var a := (p.x + p.z) % PRIME;
    var aa := a * a % PRIME;
    var b := (p.x - p.z) % PRIME;
    var bb := b * b % PRIME;
    var e := (aa - bb) % PRIME;
    Coord(aa * bb % PRIME, e * (aa + 121665 * e) % PRIME)
  }

  // (x3, z3) becomes the sum of both, whose difference has affine coordinate x1
  function DifferentialAdd(x1: int, p: Coord, q: Coord): Coord {
    var a := (p.x + p.z) % PRIME;
    var b := (p.x - p.z) % PRIME;
    var c := (q.x + q.z) % PRIME;
    var d := (q.x - q.z) % PRIME;
    OfSums(x1, a, b, c, d)
  }

  function OfSums(x1: int, a: int, b: int, c: int, d: int): Coord {
    var da := d * a % PRIME;
    var cb := c * b % PRIME;
    Coord((da + cb) * (da + cb) % PRIME, x1 * ((da - cb) * (da - cb)) % PRIME)
  }

  // pow(base, exponent, prime)
  function ModPow(base: int, exponent: nat): int
    decreases exponent
  {
    if exponent == 0 then 1
    else
      var square := ModPow(base * base % PRIME, exponent / 2);
      if exponent % 2 == 1 then square * base % PRIME else square
  }

  // x2 * pow(z2, prime - 2, prime) % prime
  function Normalize(p: Coord): int {
    p.x * ModPow(p.z, PRIME - 2) % PRIME
  }

  /* ---------- the laws ---------- */

  function Multiple<G>(g: Group<G>, p: G, n: nat): G {
    if n == 0 then g.zero else g.add(Multiple(g, p, n - 1), p)
  }

  ghost predicate Additive<G(!new)>(g: Group<G>) {
    && (forall p, q, r :: g.add(g.add(p, q), r) == g.add(p, g.add(q, r)))
    && (forall p :: g.add(g.zero, p) == p && g.add(p, g.zero) == p)
  }

  ghost predicate DoublingLaw<G(!new)>(g: Group<G>) {
    forall a, p :: g.stands(a, p) ==> g.stands(Double(a), g.add(p, p))
  }

  // For a base with a non-zero affine coordinate: pairs for q and q + base give one for 2q + base.
  ghost predicate DifferentialLaw<G(!new)>(g: Group<G>, base: G) {
    forall a, b, q :: g.stands(a, q) && g.stands(b, g.add(q, base))
      ==> g.stands(DifferentialAdd(g.affine(base), a, b), g.add(q, g.add(q, base)))
  }

  // The starting pairs, and how the result is read off.
  ghost predicate CoordinateLaw<G(!new)>(g: Group<G>) {
    && g.stands(Coord(1, 0), g.zero)
    && (forall p :: 0 <= g.affine(p) < PRIME)
    && (forall p :: g.affine(p) != 0 ==> g.stands(Coord(g.affine(p), 1), p))
    && (forall a, p :: g.stands(a, p) ==> Normalize(a) == g.affine(p))
  }

  ghost predicate LadderLaws<G(!new)>(g: Group<G>, base: G) {
    Additive(g) && DoublingLaw(g) && DifferentialLaw(g, base) && CoordinateLaw(g) && g.affine(base) != 0
  }

  lemma Associate<G(!new)>(g: Group<G>, p: G, q: G, r: G)
    requires Additive(g)
    ensures g.add(g.add(p, q), r) == g.add(p, g.add(q, r))
  {
  }

  lemma Neutral<G(!new)>(g: Group<G>, p: G)
    requires Additive(g)
    ensures g.add(g.zero, p) == p && g.add(p, g.zero) == p
  {
  }

  lemma {:induction false} MultipleAdds<G(!new)>(g: Group<G>, p: G, m: nat, n: nat)
    requires Additive(g)
    ensures g.add(Multiple(g, p, m), Multiple(g, p, n)) == Multiple(g, p, m + n)
    decreases n
  {
    hide Additive;
    if n == 0 {
      Neutral(g, Multiple(g, p, m));
    } else {
      MultipleAdds(g, p, m, n - 1);
      Associate(g, Multiple(g, p, m), Multiple(g, p, n - 1), p);
      assert m + n - 1 == m + (n - 1);
    }
  }

  lemma {:induction false} MultipleOfMultiple<G(!new)>(g: Group<G>, p: G, m: nat, n: nat)
    requires Additive(g)
    ensures Multiple(g, Multiple(g, p, m), n) == Multiple(g, p, m * n)
    decreases n
  {
    hide Additive;
    if n > 0 {
      var before: nat := m * (n - 1);
      MultipleOfMultiple(g, p, m, n - 1);
      MultipleAdds(g, p, before, m);
      assert before + m == m * n;
    }
  }

  /* ---------- the ladder ---------- */

  // The two running pairs stand for [m]base and [m+1]base, the other way round while a swap is pending.
  ghost predicate Ladder<G(!new)>(g: Group<G>, base: G, m: nat, p2: Coord, p3: Coord, swap: int) {
    var (low, high) := if swap == 1 then (p3, p2) else (p2, p3);
    g.stands(low, Multiple(g, base, m)) && g.stands(high, Multiple(g, base, m + 1))
  }

  lemma DoubleStands<G(!new)>(g: Group<G>, a: Coord, p: G)
    requires DoublingLaw(g) && g.stands(a, p)
    ensures g.stands(Double(a), g.add(p, p))
  {
  }

  lemma SumStands<G(!new)>(g: Group<G>, base: G, a: Coord, b: Coord, q: G)
    requires DifferentialLaw(g, base) && g.stands(a, q) && g.stands(b, g.add(q, base))
    ensures g.stands(DifferentialAdd(g.affine(base), a, b), g.add(q, g.add(q, base)))
  {
  }

  // The affine coordinate of a difference serves for the sum in either order of its terms.
  lemma DifferentialAddSymmetric(x1: int, p: Coord, q: Coord)
    ensures DifferentialAdd(x1, p, q) == DifferentialAdd(x1, q, p)
  {
    var a := (p.x + p.z) % PRIME;
    var b := (p.x - p.z) % PRIME;
    var c := (q.x + q.z) % PRIME;
    var d := (q.x - q.z) % PRIME;
    var da := d * a % PRIME;
    var cb := c * b % PRIME;
    Commute(d, a);
    Commute(c, b);
    assert DifferentialAdd(x1, q, p)
        == Coord((cb + da) * (cb + da) % PRIME, x1 * ((cb - da) * (cb - da)) % PRIME);
    Square(da - cb);
    assert cb + da == da + cb && cb - da == -(da - cb);
  }

  lemma Commute(x: int, y: int)
    ensures x * y == y * x
  {
  }

  lemma Square(x: int)
    ensures (-x) * (-x) == x * x
  {
  }

  // One step after its swap: with the pair for the next bit's branch in front, doubling and
  // adding move from [m], [m+1] to [2m + bit], [2m + bit + 1], left swapped when the bit is set.
  lemma LadderStep<G(!new)>(g: Group<G>, base: G, m: nat, bit: int, p2: Coord, p3: Coord)
    requires LadderLaws(g, base) && (bit == 0 || bit == 1)
    requires Ladder(g, base, m, p2, p3, bit)
    ensures Ladder(g, base, 2 * m + bit, Double(p2), DifferentialAdd(g.affine(base), p2, p3), bit)
  {
    hide Additive, DoublingLaw, DifferentialLaw, CoordinateLaw, Double, DifferentialAdd;
    var (q, next) := (Multiple(g, base, m), Multiple(g, base, m + 1));
    assert next == g.add(q, base);
    MultipleAdds(g, base, m, m);
    MultipleAdds(g, base, m, m + 1);
    MultipleAdds(g, base, m + 1, m + 1);
    assert m + m == 2 * m && m + (m + 1) == 2 * m + 1 && (m + 1) + (m + 1) == 2 * m + 2;
    if bit == 0 {
      DoubleStands(g, p2, q);
      SumStands(g, base, p2, p3, q);
    } else {
      DoubleStands(g, p2, next);
      DifferentialAddSymmetric(g.affine(base), p2, p3);
      SumStands(g, base, p3, p2, q);
    }
  }

  function Bit(k: nat, i: nat): (b: int)
    ensures b == 0 || b == 1
  {
    (k / Pow2(i)) % 2
  }

  // The scalar without its lowest n bits.
  function Prefix(k: nat, n: nat): nat {
    QuotientNonNegative(k, Pow2(n));
    k / Pow2(n)
  }

  lemma QuotientNonNegative(k: nat, d: nat)
    requires d > 0
    ensures k / d >= 0
  {
  }

  lemma HalfOfQuotient(k: nat, d: nat)
    requires d > 0
    ensures k / d == 2 * (k / (2 * d)) + (k / d) % 2
  {
    var (q, r) := (k / d, k % d);
    TwoHalves(q / 2, q % 2, d);
    DivMod(k, q / 2, if q % 2 == 0 then r else d + r, 2 * d);
  }

  lemma TwoHalves(h: nat, b: nat, d: nat)
    requires b < 2
    ensures (2 * h + b) * d == h * (2 * d) + (if b == 0 then 0 else d)
  {
    assert (2 * h + b) * d == (2 * h) * d + b * d;
    assert (2 * h) * d == h * (2 * d);
  }

  lemma PrefixStep(k: nat, n: nat)
    ensures Prefix(k, n) == 2 * Prefix(k, n + 1) + Bit(k, n)
  {
    HalfOfQuotient(k, Pow2(n));
  }

  // The running pairs, and whether their swap back is pending.
  datatype Pairs = Pairs(p2: Coord, p3: Coord, swap: int)

  // One turn of the loop: swap when the bit differs from the last one, then double and add.
  function Turn(x1: int, s: Pairs, bit: int): Pairs {
    var (q2, q3) := if (s.swap + bit) % 2 == 1 then (s.p3, s.p2) else (s.p2, s.p3);
    Pairs(Double(q2), DifferentialAdd(x1, q2, q3), bit)
  }

  // The pairs after the bits from 254 down to n.
  function Running(k: nat, x1: int, n: nat): Pairs
    decreases 255 - n
  {
    if n >= 255 then Pairs(Coord(1, 0), Coord(x1, 1), 0) else Turn(x1, Running(k, x1, n + 1), Bit(k, n))
  }

  function Front(s: Pairs): Coord {
    if s.swap == 1 then s.p3 else s.p2
  }

  // What the ladder returns for any scalar and any coordinate.
  function Climbed(k: nat, x1: int): (r: nat)
    ensures r < PRIME
  {
    Normalize(Front(Running(k, x1, 0)))
  }

  method LadderLoop(k: nat, x1: int) returns (r: int)
    ensures r == Climbed(k, x1)
  {
    hide Double, DifferentialAdd, Bit, Normalize;
    var p2, p3 := Coord(1, 0), Coord(x1, 1);
    var swap := 0;
    var index := 254;
    while index >= 0
      invariant -1 <= index <= 254 && Pairs(p2, p3, swap) == Running(k, x1, index + 1)
      decreases index
    {
      var bit := Bit(k, index);
      swap := (swap + bit) % 2;
      if swap == 1 {
        p2, p3 := p3, p2;
      }
      swap := bit;
      p2, p3 := Double(p2), DifferentialAdd(x1, p2, p3);
      index := index - 1;
    }
    if swap == 1 {
      p2, p3 := p3, p2;
    }
    r := Normalize(p2);
  }

  /* ---------- any coordinate ---------- */

  lemma ModFactor(a: int, b: int)
    ensures a * b % PRIME == (a % PRIME) * b % PRIME
  {
    var q := a / PRIME;
    assert a * b == (a % PRIME) * b + PRIME * (q * b);
    AddMultiple((a % PRIME) * b, q * b);
  }

  lemma AddMultiple(r: int, q: int)
    ensures (r + PRIME * q) % PRIME == r % PRIME
  {
  }

  lemma ModSum(a: int, b: int)
    ensures (a % PRIME + b) % PRIME == (a + b) % PRIME && (a % PRIME - b) % PRIME == (a - b) % PRIME
  {
    AddMultiple(a % PRIME + b, a / PRIME);
    AddMultiple(a % PRIME - b, a / PRIME);
  }

  function Reduced(p: Coord): Coord {
    Coord(p.x % PRIME, p.z)
  }

  lemma DoubleReduces(p: Coord)
    ensures Double(Reduced(p)) == Double(p)
  {
    ModSum(p.x, p.z);
  }

  lemma DifferentialAddReduces(x1: int, p: Coord, q: Coord)
    ensures DifferentialAdd(x1 % PRIME, Reduced(p), q) == DifferentialAdd(x1, p, q)
    ensures DifferentialAdd(x1 % PRIME, p, Reduced(q)) == DifferentialAdd(x1, p, q)
  {
    ResidueFactors(x1, p, q);
    ReducedSums(x1 % PRIME, p, q);
    hide DifferentialAdd, Reduced;
  }

  lemma ResidueFactors(x1: int, p: Coord, q: Coord)
    ensures DifferentialAdd(x1 % PRIME, p, q) == DifferentialAdd(x1, p, q)
  {
    var (a, b, c, d) := ((p.x + p.z) % PRIME, (p.x - p.z) % PRIME, (q.x + q.z) % PRIME, (q.x - q.z) % PRIME);
    var (da, cb) := (d * a % PRIME, c * b % PRIME);
    ModFactor(x1, (da - cb) * (da - cb));
  }

  lemma ReducedSums(x1: int, p: Coord, q: Coord)
    ensures DifferentialAdd(x1, Reduced(p), q) == DifferentialAdd(x1, p, q)
    ensures DifferentialAdd(x1, p, Reduced(q)) == DifferentialAdd(x1, p, q)
  {
    hide OfSums;
    ModSum(p.x, p.z);
    ModSum(q.x, q.z);
  }

  // After the first turn the pairs no longer show whether the coordinate was reduced.
  lemma {:induction false} RunningReduces(k: nat, x1: int, n: nat)
    requires n < 255
    ensures Running(k, x1 % PRIME, n) == Running(k, x1, n)
    decreases 255 - n
  {
    var (p2, p3) := (Coord(1, 0), Coord(x1, 1));
    if n == 254 {
      DoubleReduces(p3);
      DifferentialAddReduces(x1, p2, p3);
      DifferentialAddReduces(x1, p3, p2);
      assert Reduced(p3) == Coord(x1 % PRIME, 1);
      hide Double, DifferentialAdd, Bit;
    } else {
      RunningReduces(k, x1, n + 1);
      var s := Running(k, x1, n + 1);
      SameTurn(x1, s, Bit(k, n));
      hide Turn;
    }
  }

  lemma SameTurn(x1: int, s: Pairs, bit: int)
    ensures Turn(x1 % PRIME, s, bit) == Turn(x1, s, bit)
  {
    var (q2, q3) := if (s.swap + bit) % 2 == 1 then (s.p3, s.p2) else (s.p2, s.p3);
    SameDifferentialAdd(x1, q2, q3);
    hide Double, DifferentialAdd;
  }

  lemma SameDifferentialAdd(x1: int, p: Coord, q: Coord)
    ensures DifferentialAdd(x1 % PRIME, p, q) == DifferentialAdd(x1, p, q)
  {
    var (a, b, c, d) := ((p.x + p.z) % PRIME, (p.x - p.z) % PRIME, (q.x + q.z) % PRIME, (q.x - q.z) % PRIME);
    var (da, cb) := (d * a % PRIME, c * b % PRIME);
    ModFactor(x1, (da - cb) * (da - cb));
  }

  // A coordinate and its residue give the same result.
  lemma OnlyResidueMatters(k: nat, x1: int)
    ensures Climbed(k, x1) == Climbed(k, x1 % PRIME)
  {
    RunningReduces(k, x1, 0);
    hide Running, Normalize;
  }

  lemma {:induction false} PowerOfZero(exponent: nat)
    requires exponent > 0
    ensures ModPow(0, exponent) == 0
    decreases exponent
  {
    if exponent > 1 { PowerOfZero(exponent / 2); }
  }

  lemma DoubleOfInfinity(x: int)
    ensures Double(Coord(x, 0)).z == 0
  {
    var s := x % PRIME * (x % PRIME) % PRIME;
    assert x + 0 == x - 0 == x;
    FlatDouble(x, 0, s);
  }

  lemma DoubleOfZero()
    ensures Double(Coord(0, 1)).z == 0
  {
    assert (PRIME - 1) * (PRIME - 1) % PRIME == 1 && (0 - 1) % PRIME == PRIME - 1 && (0 + 1) % PRIME == 1;
    FlatDouble(0, 1, 1);
  }

  // Equal squares of sum and difference make the doubled pair flat.
  lemma FlatDouble(x: int, z: int, s: int)
    requires (x + z) % PRIME * ((x + z) % PRIME) % PRIME == s && (x - z) % PRIME * ((x - z) % PRIME) % PRIME == s
    ensures Double(Coord(x, z)).z == 0
  {
    var (a, b) := ((x + z) % PRIME, (x - z) % PRIME);
    var (aa, bb) := (a * a % PRIME, b * b % PRIME);
    NoDifference(s);
    assert aa == s && bb == s;
  }

  lemma NoDifference(s: int)
    ensures (s - s) % PRIME == 0 && 0 * (s + 121665 * 0) % PRIME == 0
  {
  }

  lemma AddAtZero(p: Coord, q: Coord)
    ensures DifferentialAdd(0, p, q).z == 0
  {
  }

  lemma {:induction false} ZeroStays(k: nat, n: nat)
    requires n < 255
    ensures Running(k, 0, n).p2.z == 0 && Running(k, 0, n).p3.z == 0
    decreases 255 - n
  {
    var s := Running(k, 0, n + 1);
    var (q2, q3) := if (s.swap + Bit(k, n)) % 2 == 1 then (s.p3, s.p2) else (s.p2, s.p3);
    if n < 254 { ZeroStays(k, n + 1); }
    DoubleOfInfinity(q2.x);
    DoubleOfZero();
    AddAtZero(q2, q3);
    hide Double, DifferentialAdd, Bit;
  }

  // A coordinate that is zero modulo the prime gives zero, for every scalar.
  lemma ZeroGivesZero(k: nat, x1: int)
    requires x1 % PRIME == 0
    ensures Climbed(k, x1) == 0
  {
    hide Running, Climbed, Front, Normalize, ModPow;
    OnlyResidueMatters(k, x1);
    ZeroStays(k, 0);
    FlatNormalizes(Running(k, 0, 0).p2);
    FlatNormalizes(Running(k, 0, 0).p3);
    ClimbedFrom(k, Running(k, 0, 0));
  }

  lemma FlatNormalizes(p: Coord)
    requires p.z == 0
    ensures Normalize(p) == 0
  {
    PowerOfZero(PRIME - 2);
    hide ModPow;
  }

  lemma ClimbedFrom(k: nat, s: Pairs)
    requires s == Running(k, 0, 0)
    ensures Climbed(k, 0) == Normalize(s.p2) || Climbed(k, 0) == Normalize(s.p3)
  {
    hide Running, Normalize;
  }

  /* ---------- the multiple of a base ---------- */

  lemma LadderStart<G(!new)>(g: Group<G>, base: G)
    requires LadderLaws(g, base)
    ensures Ladder(g, base, 0, Coord(1, 0), Coord(g.affine(base), 1), 0)
  {
    Neutral(g, base);
    assert Multiple(g, base, 1) == g.add(Multiple(g, base, 0), base);
  }

  lemma {:induction false} RunningStands<G(!new)>(g: Group<G>, base: G, k: nat, n: nat)
    requires LadderLaws(g, base) && Prefix(k, 255) == 0 && n <= 255
    ensures var s := Running(k, g.affine(base), n);
            (s.swap == 0 || s.swap == 1) && Ladder(g, base, Prefix(k, n), s.p2, s.p3, s.swap)
    decreases 255 - n
  {
    hide LadderLaws, Additive, DoublingLaw, DifferentialLaw, CoordinateLaw, Double, DifferentialAdd, Bit, Prefix;
    if n == 255 {
      LadderStart(g, base);
    } else {
      RunningStands(g, base, k, n + 1);
      PrefixStep(k, n);
      var s := Running(k, g.affine(base), n + 1);
      var (q2, q3) := if (s.swap + Bit(k, n)) % 2 == 1 then (s.p3, s.p2) else (s.p2, s.p3);
      LadderStep(g, base, Prefix(k, n + 1), Bit(k, n), q2, q3);
    }
  }

  // For a scalar below 2^255 and a base with a coordinate congruent to x1, the ladder returns the
  // coordinate of [k]base.
  lemma LadderIsMultiple<G(!new)>(g: Group<G>, base: G, k: nat, x1: int)
    requires LadderLaws(g, base) && g.affine(base) == x1 % PRIME && Prefix(k, 255) == 0
    ensures Climbed(k, x1) == g.affine(Multiple(g, base, k))
  {
    OnlyResidueMatters(k, x1);
    RunningStands(g, base, k, 0);
    var s := Running(k, g.affine(base), 0);
    WholePrefix(k);
    hide Running, Normalize, Multiple, Prefix, Additive, DoublingLaw, DifferentialLaw;
    assert g.stands(Front(s), Multiple(g, base, k));
  }

  lemma WholePrefix(k: nat)
    ensures Prefix(k, 0) == k
  {
  }

  /* ---------- keys ---------- */

  // scalar[0] &= 248, scalar[31] &= 127, scalar[31] |= 64
  function ClampedScalar(secret: Bytes): nat
    requires |secret| == 32
  {
    FromLittle(Ed25519.Clamp(secret))
  }

  // & 127 then | 64 on the top byte leaves its low six bits and sets the next.
  lemma ClampMasks(b: bv8)
    ensures (b & 248) as int == (b as int) / 8 * 8
    ensures ((b & 127) | 64) as int == (b as int) % 64 + 64
  {
    assert b & 248 == b / 8 * 8;
    assert (b & 127) | 64 == b % 64 + 64;
  }

  // The u-coordinate of received bytes: the top bit is dropped.
  function Coordinate(key: Bytes): nat
    requires |key| == 32
  {
    FromLittle(key) % TWO_255
  }

  // The shared secret, or with the base coordinate received, the public key.
  function Secret(secret: Bytes, received: Bytes): (r: Bytes)
    requires |secret| == 32 && |received| == 32
    ensures |r| == 32
  {
    ToLittle(Climbed(ClampedScalar(secret), Coordinate(received)), 32)
  }

  // None where the lengths are refused.
  method SharedSecret(secret: Bytes, received: Bytes) returns (r: Option<Bytes>)
    ensures r == if |secret| != 32 || |received| != 32 then None else Some(Secret(secret, received))
  {
    if |secret| != 32 || |received| != 32 { return None; }
    var x := LadderLoop(ClampedScalar(secret), Coordinate(received));
    return Some(ToLittle(x, 32));
  }

  // The coordinate 9 in 32 bytes.
  const BASE_COORDINATE: Bytes := [9] + Zeros(31)

  function PublicKey(secret: Bytes): (key: Bytes)
    requires |secret| == 32
    ensures |key| == 32
  {
    Secret(secret, BASE_COORDINATE)
  }

  // Received bytes whose coordinates are congruent give one secret, and those congruent to zero give
  // 32 zero bytes.
  lemma ReceivedModuloPrime(secret: Bytes, received: Bytes, other: Bytes)
    requires |secret| == 32 && |received| == 32 && |other| == 32
    ensures Coordinate(received) % PRIME == Coordinate(other) % PRIME ==>
              Secret(secret, received) == Secret(secret, other)
    ensures Coordinate(received) % PRIME == 0 ==> Secret(secret, received) == ToLittle(0, 32)
  {
    OnlyResidueMatters(ClampedScalar(secret), Coordinate(received));
    OnlyResidueMatters(ClampedScalar(secret), Coordinate(other));
    if Coordinate(received) % PRIME == 0 { ZeroGivesZero(ClampedScalar(secret), Coordinate(received)); }
    hide Climbed, ToLittle, FromLittle, ClampedScalar;
  }

  lemma ScalarFits(secret: Bytes)
    requires |secret| == 32
    ensures Prefix(ClampedScalar(secret), 255) == 0
  {
    Ed25519.ClampedRange(secret);
    hide FromLittle;
    Pow2Of255();
  }

  lemma Pow2Of255()
    ensures Pow2(255) == TWO_255
  {
    Pow2Values();
    hide Pow2;
    Pow2Adds(32, 32);
    Pow2Adds(64, 64);
    Pow2Adds(128, 128);
    assert Pow2(256) == 2 * TWO_255;
    Pow2Adds(1, 255);
    assert Pow2(1) == 2 by { Pow2One(); }
  }

  lemma Pow2One()
    ensures Pow2(1) == 2
  {
  }

  lemma {:induction false} ZerosAreZero(n: nat)
    ensures FromLittle(Zeros(n)) == 0
  {
    if n > 0 {
      ZerosAreZero(n - 1);
      assert Zeros(n)[1..] == Zeros(n - 1);
    }
  }

  lemma BaseCoordinateIsNine()
    ensures |BASE_COORDINATE| == 32 && Coordinate(BASE_COORDINATE) == 9
  {
    ZerosAreZero(31);
    assert BASE_COORDINATE[1..] == Zeros(31);
    assert FromLittle(BASE_COORDINATE) == 9;
  }

  lemma BelowPrime(x: nat)
    requires x < PRIME
    ensures x % TWO_255 == x && x < 2 * TWO_255 && x % PRIME == x
  {
  }

  // Reading back the bytes of a result drops nothing.
  lemma CoordinateOfSecret(secret: Bytes, received: Bytes)
    requires |secret| == 32 && |received| == 32
    ensures Coordinate(Secret(secret, received)) == Climbed(ClampedScalar(secret), Coordinate(received))
  {
    var x := Climbed(ClampedScalar(secret), Coordinate(received));
    hide FromLittle, ToLittle, Pow256, ClampedScalar, Climbed;
    Ed25519.Pow256Of32();
    BelowPrime(x);
    LittleRoundTrip(x, 32);
  }

  // The base generates a group of order L in which only the neutral element has affine
  // coordinate 0, and the differential law holds for each of the others as a base.
  ghost predicate Subgroup<G(!new)>(g: Group<G>, base: G) {
    && (forall n: nat :: g.affine(Multiple(g, base, n)) == 0 <==> n % L == 0)
    && (forall n: nat :: n % L != 0 ==> DifferentialLaw(g, Multiple(g, base, n)))
  }

  lemma SubgroupAt<G(!new)>(g: Group<G>, base: G, n: nat)
    requires Subgroup(g, base) && n % L != 0
    ensures g.affine(Multiple(g, base, n)) != 0 && DifferentialLaw(g, Multiple(g, base, n))
  {
  }

  // Every multiple of the base that is not neutral is a usable base in its turn.
  lemma MultipleServes<G(!new)>(g: Group<G>, base: G, n: nat)
    requires Additive(g) && DoublingLaw(g) && CoordinateLaw(g) && Subgroup(g, base) && n % L != 0
    ensures LadderLaws(g, Multiple(g, base, n))
  {
    hide Additive, DoublingLaw, CoordinateLaw, DifferentialLaw, Subgroup;
    SubgroupAt(g, base, n);
  }

  lemma ClampedIsNotNeutral(secret: Bytes)
    requires |secret| == 32
    ensures ClampedScalar(secret) % L != 0 && Prefix(ClampedScalar(secret), 255) == 0
  {
    Ed25519.ClampedIsNotMultipleOfL(secret);
    ScalarFits(secret);
    hide FromLittle;
  }

  // A public key is the coordinate of [a]B for the clamped a, which is a usable base in its turn.
  lemma PublicKeyServes<G(!new)>(g: Group<G>, base: G, secret: Bytes)
    requires |secret| == 32 && g.affine(base) == 9
    requires Additive(g) && DoublingLaw(g) && CoordinateLaw(g) && Subgroup(g, base)
    ensures Coordinate(PublicKey(secret)) == g.affine(Multiple(g, base, ClampedScalar(secret)))
    ensures LadderLaws(g, Multiple(g, base, ClampedScalar(secret)))
  {
    hide Additive, DoublingLaw, CoordinateLaw, DifferentialLaw, Subgroup, ClampedScalar, LadderLaws, Climbed,
         Prefix, Secret;
    ClampedIsNotNeutral(secret);
    MultipleServes(g, base, ClampedScalar(secret));
    Neutral(g, base);
    assert Multiple(g, base, 1) == g.add(Multiple(g, base, 0), base);
    MultipleServes(g, base, 1);
    BaseCoordinateIsNine();
    CoordinateOfSecret(secret, BASE_COORDINATE);
    LadderIsMultiple(g, base, ClampedScalar(secret), 9);
  }

  // Both parties derive the same secret from each other's public key.
  lemma PartiesAgree<G(!new)>(g: Group<G>, base: G, a: Bytes, b: Bytes)
    requires |a| == 32 && |b| == 32 && g.affine(base) == 9
    requires Additive(g) && DoublingLaw(g) && CoordinateLaw(g) && Subgroup(g, base)
    ensures Secret(a, PublicKey(b)) == Secret(b, PublicKey(a))
  {
    var (x, y) := (ClampedScalar(a), ClampedScalar(b));
    hide ClampedScalar, Additive, DoublingLaw, DifferentialLaw, CoordinateLaw, Subgroup, LadderLaws, Climbed,
         Prefix, PublicKey, ToLittle;
    SecretIsMultiple(g, base, a, b);
    SecretIsMultiple(g, base, b, a);
    MultipleOfMultiple(g, base, x, y);
    MultipleOfMultiple(g, base, y, x);
    Commute(x, y);
  }

  lemma SecretIsMultiple<G(!new)>(g: Group<G>, base: G, a: Bytes, b: Bytes)
    requires |a| == 32 && |b| == 32 && g.affine(base) == 9
    requires Additive(g) && DoublingLaw(g) && CoordinateLaw(g) && Subgroup(g, base)
    ensures Climbed(ClampedScalar(a), Coordinate(PublicKey(b)))
              == g.affine(Multiple(g, Multiple(g, base, ClampedScalar(b)), ClampedScalar(a)))
  {
    hide ClampedScalar, Additive, DoublingLaw, DifferentialLaw, Subgroup, LadderLaws, Climbed, Prefix,
         PublicKey, Coordinate, Multiple;
    PublicKeyServes(g, base, b);
    ClampedIsNotNeutral(a);
    BelowPrime(Coordinate(PublicKey(b)));
    LadderIsMultiple(g, Multiple(g, base, ClampedScalar(b)), ClampedScalar(a), Coordinate(PublicKey(b)));
  }
}
