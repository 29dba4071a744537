/** Bytes, fixed-width integers and the two byte orders the programs use. */
module Bytes {

  type byte = b: int | 0 <= b < 256
  type Bytes = seq<byte>

  // What Python raises and C reports by a non-zero code.
  datatype Result<+T, +E> = Ok(value: T) | Err(error: E)
  datatype Option<+T> = None | Some(value: T) {
    function GetOr(default: T): T {
      if None? then default else value
    }
  }

  const U32_MAX: int := 0xFFFF_FFFF
  const U64_MAX: int := 0xFFFF_FFFF_FFFF_FFFF
  const I64_MIN: int := -0x8000_0000_0000_0000
  const I64_MAX: int := 0x7FFF_FFFF_FFFF_FFFF

  function Zeros(n: nat): (r: Bytes)
    ensures |r| == n && forall i :: 0 <= i < n ==> r[i] == 0
  {
    seq(n, i => 0)
  }

  // 256^width
  function Pow256(width: nat): (p: nat)
    ensures p > 0
  {
    if width == 0 then 1 else 256 * Pow256(width - 1)
  }

  // int.to_bytes(width, "big"), for n below 256^width
  function ToBig(n: nat, width: nat): (s: Bytes)
    ensures |s| == width
  {
    if width == 0 then [] else ToBig(n / 256, width - 1) + [n % 256]
  }

  // int.from_bytes(s, "big")
  function FromBig(s: Bytes): nat {
    if s == [] then 0 else FromBig(s[..|s| - 1]) * 256 + s[|s| - 1]
  }

  // int.to_bytes(width, "little"), for n below 256^width
  function ToLittle(n: nat, width: nat): (s: Bytes)
    ensures |s| == width
  {
    if width == 0 then [] else [n % 256] + ToLittle(n / 256, width - 1)
  }

  // int.from_bytes(s, "little")
  function FromLittle(s: Bytes): nat {
    if s == [] then 0 else s[0] + 256 * FromLittle(s[1..])
  }

  lemma Pow256Values()
    ensures Pow256(1) == 0x100
    ensures Pow256(2) == 0x1_0000
    ensures Pow256(4) == 0x1_0000_0000
    ensures Pow256(8) == 0x1_0000_0000_0000_0000
  {
  }

  lemma Digit(digit: byte, rest: nat)
    ensures (digit + 256 * rest) / 256 == rest && (digit + 256 * rest) % 256 == digit
  {
  }

  lemma {:induction false} BigRoundTrip(n: nat, width: nat)
    requires n < Pow256(width)
    ensures FromBig(ToBig(n, width)) == n
  {
    if width > 0 {
      BigRoundTrip(n / 256, width - 1);
      var s := ToBig(n, width);
      assert s[..|s| - 1] == ToBig(n / 256, width - 1);
    }
  }

  lemma {:induction false} BigOfBytes(s: Bytes)
    ensures FromBig(s) < Pow256(|s|)
    ensures ToBig(FromBig(s), |s|) == s
  {
    if s != [] {
      BigOfBytes(s[..|s| - 1]);
      Digit(s[|s| - 1], FromBig(s[..|s| - 1]));
      assert s == s[..|s| - 1] + [s[|s| - 1]];
    }
  }

  lemma {:induction false} LittleRoundTrip(n: nat, width: nat)
    requires n < Pow256(width)
    ensures FromLittle(ToLittle(n, width)) == n
  {
    if width > 0 {
      LittleRoundTrip(n / 256, width - 1);
      assert ToLittle(n, width)[1..] == ToLittle(n / 256, width - 1);
    }
  }

  lemma {:induction false} LittleOfBytes(s: Bytes)
    ensures FromLittle(s) < Pow256(|s|)
    ensures ToLittle(FromLittle(s), |s|) == s
  {
    if s != [] {
      LittleOfBytes(s[1..]);
      Digit(s[0], FromLittle(s[1..]));
      assert s == [s[0]] + s[1..];
    }
  }

  // The bytes of an ASCII literal.
  function Ascii(s: string): (b: Bytes)
    requires forall i :: 0 <= i < |s| ==> s[i] < 128 as char
    ensures |b| == |s| && forall i :: 0 <= i < |s| ==> b[i] == s[i] as int
  {
    seq(|s|, i requires 0 <= i < |s| => s[i] as int as byte)
  }

  // The number of bytes of a text in UTF-8.
  function Utf8Length(s: string): nat {
    if s == [] then 0
    else
      (if s[0] < 0x80 as char then 1 else if s[0] < 0x800 as char then 2 else if s[0] < 0x10000 as char then 3 else 4)
      + Utf8Length(s[1..])
  }

  // Python's order on bytes objects.
  predicate LexLeq(a: Bytes, b: Bytes) {
    a == [] || (b != [] && (a[0] < b[0] || (a[0] == b[0] && LexLeq(a[1..], b[1..]))))
  }

  lemma {:induction false} LexTotal(a: Bytes, b: Bytes)
    ensures LexLeq(a, b) || LexLeq(b, a)
    ensures LexLeq(a, b) && LexLeq(b, a) ==> a == b
  {
    if a != [] && b != [] {
      LexTotal(a[1..], b[1..]);
      assert a == [a[0]] + a[1..] && b == [b[0]] + b[1..];
    }
  }

  lemma {:induction false} LexTransitive(a: Bytes, b: Bytes, c: Bytes)
    requires LexLeq(a, b) && LexLeq(b, c)
    ensures LexLeq(a, c)
  {
    if a != [] && a[0] == b[0] == c[0] {
      LexTransitive(a[1..], b[1..], c[1..]);
    }
  }

  // Splitting a concatenation whose first parts have equal length.
  lemma SplitConcat<T>(a: seq<T>, b: seq<T>, c: seq<T>, d: seq<T>)
    requires |a| == |c| && a + b == c + d
    ensures a == c && b == d
  {
    assert a == (a + b)[..|a|];
    assert c == (c + d)[..|c|];
    assert b == (a + b)[|a|..];
    assert d == (c + d)[|c|..];
  }

  /* ---------- permutations ---------- */

  lemma PermutationMembers<T(!new)>(a: seq<T>, b: seq<T>)
    requires multiset(a) == multiset(b)
    ensures |a| == |b| && forall x :: x in a <==> x in b
  {
    assert |a| == |multiset(a)| == |multiset(b)| == |b|;
    forall x ensures x in a <==> x in b {
      assert (x in a <==> x in multiset(a)) && (x in b <==> x in multiset(b));
    }
  }

  lemma TailPermutation<T>(x: T, s: seq<T>, t: seq<T>)
    requires multiset([x] + s) == multiset([x] + t)
    ensures multiset(s) == multiset(t)
  {
    assert multiset(s) == multiset([x] + s) - multiset{x};
    assert multiset(t) == multiset([x] + t) - multiset{x};
  }
}
