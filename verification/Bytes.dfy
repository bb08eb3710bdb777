/** Bytes, fixed-width integers and the big-endian encoding used by every wire format of the SDK. */
module Bytes {

  type byte = b: int | 0 <= b < 256

  const TWO_32 := 0x1_0000_0000
  const TWO_63 := 0x8000_0000_0000_0000
  const TWO_64 := 0x1_0000_0000_0000_0000

  type u32 = x: int | 0 <= x < 0x1_0000_0000
  type u64 = x: int | 0 <= x < 0x1_0000_0000_0000_0000

  datatype Option<+T> = None | Some(value: T)

  datatype Result<+T, +E> = Ok(value: T) | Err(error: E)

  function Min(a: int, b: int): int {
    if a < b then a else b
  }

  function Pow2(n: nat): (p: nat)
    ensures p >= 1
  {
    if n == 0 then 1 else 2 * Pow2(n - 1)
  }

  lemma {:induction false} Pow2Sum(a: nat, b: nat)
    ensures Pow2(a + b) == Pow2(a) * Pow2(b)
  {
    if a > 0 {
      Pow2Sum(a - 1, b);
    }
  }

  lemma Pow2Values()
    ensures Pow2(7) == 128 && Pow2(12) == 4096 && Pow2(20) == 0x10_0000 && Pow2(30) == 0x4000_0000 && Pow2(64) == TWO_64
  {
    assert Pow2(7) == 128;
    assert Pow2(12) == 4096;
    Pow2Sum(10, 10);
    Pow2Sum(10, 20);
    Pow2Sum(4, 30);
    Pow2Sum(30, 34);
    assert Pow2(10) == 0x400 && Pow2(4) == 16;
  }

  lemma MulMonotone(a: int, b: int, d: nat)
    requires a <= b
    ensures a * d <= b * d
  {
  }

  lemma DivUnique(n: int, d: nat, q: int)
    requires d > 0 && q * d <= n < q * d + d
    ensures n / d == q
  {
    var other := n / d;
    assert other * d <= n < other * d + d;
    assert (other + 1) * d == other * d + d && (q + 1) * d == q * d + d;
    if other < q {
      MulMonotone(other + 1, q, d);
    } else if other > q {
      MulMonotone(q + 1, other, d);
    }
  }

  lemma DivStep(n: nat, d: nat)
    requires d > 0
    ensures (n + d) / d == n / d + 1
  {
    var q := n / d;
    assert q * d <= n < q * d + d;
    assert (q + 1) * d == q * d + d;
    DivUnique(n + d, d, q + 1);
  }

  /** The conversion int64(x) of an unsigned 64-bit value. */
  function ToInt64(x: u64): int {
    if x < TWO_63 then x else x - TWO_64
  }

  /** A 64-bit two's-complement result. */
  function Wrap64(x: int): (r: int)
    ensures -TWO_63 <= x < TWO_63 ==> r == x
  {
    ToInt64(x % TWO_64)
  }

  /** The low `width` bytes of v, most significant first: PutUint16 / 32 / 64 with Go's truncation. */
  function BigEndian(v: nat, width: nat): (s: seq<byte>)
    ensures |s| == width
  {
    if width == 0 then [] else BigEndian(v / 256, width - 1) + [v % 256]
  }

  function FromBigEndian(s: seq<byte>): nat {
    if s == [] then 0 else 256 * FromBigEndian(s[..|s| - 1]) + s[|s| - 1]
  }

  function Flatten(parts: seq<seq<byte>>): seq<byte> {
    if parts == [] then [] else parts[0] + Flatten(parts[1..])
  }

  lemma Associate(a: seq<byte>, b: seq<byte>, c: seq<byte>)
    ensures a + b + c == a + (b + c)
  {
  }

  lemma {:induction false} FlattenConcat(a: seq<seq<byte>>, b: seq<seq<byte>>)
    ensures Flatten(a + b) == Flatten(a) + Flatten(b)
  {
    if a == [] {
      assert a + b == b;
    } else {
      FlattenConcat(a[1..], b);
      assert (a + b)[1..] == a[1..] + b && (a + b)[0] == a[0];
      Associate(a[0], Flatten(a[1..]), Flatten(b));
    }
  }

  lemma FlattenTwo(a: seq<byte>, b: seq<byte>)
    ensures Flatten([a]) == a && Flatten([a, b]) == a + b
  {
    var one: seq<seq<byte>>, two: seq<seq<byte>> := [b], [a, b];
    assert two[1..] == one && |one[1..]| == 0;
    assert Flatten(one) == b && Flatten(two) == a + Flatten(one);
    assert Flatten([a]) == a by {
      var single: seq<seq<byte>> := [a];
      assert |single[1..]| == 0;
    }
  }

  function Pow256(n: nat): (p: nat)
    ensures p >= 1
  {
    if n == 0 then 1 else 256 * Pow256(n - 1)
  }

  lemma {:induction false} FromBigEndianBound(s: seq<byte>)
    ensures FromBigEndian(s) < Pow256(|s|)
  {
    if s != [] {
      FromBigEndianBound(s[..|s| - 1]);
    }
  }

  lemma FromBigEndian8(s: seq<byte>)
    requires |s| == 8
    ensures FromBigEndian(s) < TWO_64
  {
    FromBigEndianBound(s);
    Widths();
  }

  lemma {:induction false} BigEndianInverse(v: nat, width: nat)
    requires v < Pow256(width)
    ensures FromBigEndian(BigEndian(v, width)) == v
  {
    if width > 0 {
      assert v / 256 < Pow256(width - 1);
      BigEndianInverse(v / 256, width - 1);
      assert BigEndian(v, width)[..width - 1] == BigEndian(v / 256, width - 1);
    }
  }

  /** The most significant byte comes first. */
  lemma {:induction false} BigEndianAt(v: nat, width: nat, k: nat)
    requires k < width
    ensures BigEndian(v, width)[k] == v / Pow256(width - 1 - k) % 256
  {
    if k < width - 1 {
      BigEndianAt(v / 256, width - 1, k);
      DivTwice(v, 256, Pow256(width - 2 - k));
    }
  }

  lemma DivTwice(n: nat, a: nat, b: nat)
    requires a > 0 && b > 0
    ensures a * b > 0 && n / a / b == n / (a * b)
  {
    var q := n / a / b;
    assert q * b <= n / a < q * b + b;
    MulMonotone(q * b, n / a, a);
    MulMonotone(n / a + 1, q * b + b, a);
    assert q * b * a == q * (a * b) && (q * b + b) * a == q * (a * b) + a * b;
    DivUnique(n, a * b, q);
  }

  /** And it weighs the most. */
  lemma {:induction false} FromBigEndianFirst(first: byte, s: seq<byte>)
    ensures FromBigEndian([first] + s) == first * Pow256(|s|) + FromBigEndian(s)
  {
    if s == [] {
      assert [first] + s == [first];
    } else {
      var front := s[..|s| - 1];
      assert ([first] + s)[..|s|] == [first] + front;
      FromBigEndianFirst(first, front);
    }
  }

  lemma Widths()
    ensures Pow256(2) == 0x1_0000 && Pow256(4) == TWO_32 && Pow256(8) == TWO_64
  {
    assert Pow256(1) == 256;
    assert Pow256(2) == 0x1_0000;
    assert Pow256(3) == 0x100_0000;
    assert Pow256(4) == TWO_32;
    assert Pow256(5) == 0x100_0000_0000;
    assert Pow256(6) == 0x1_0000_0000_0000;
    assert Pow256(7) == 0x100_0000_0000_0000;
  }

  lemma BigEndianRoundTrip(v: nat, width: nat)
    requires (width == 2 && v < 0x1_0000) || (width == 4 && v < TWO_32) || (width == 8 && v < TWO_64)
    ensures FromBigEndian(BigEndian(v, width)) == v
  {
    Widths();
    BigEndianInverse(v, width);
  }
}

/** The 128-bit identifiers (stdlib/tag) with their lexicographic order. */
module Uids {
  import opened Bytes

  datatype UID = UID(hi: u64, lo: u64) {

    predicate IsNil() {
      hi == 0 && lo == 0
    }

    /** CompareTo(other) < 0. */
    predicate Less(other: UID) {
      hi < other.hi || (hi == other.hi && lo < other.lo)
    }

    /** Non-nil and not one of the reserved sentinels above the largest identifier. */
    predicate IsSet() {
      !IsNil() && (hi < 0xFFFF_FFFF_FFFF_FFFF || lo <= 0xFFFF_FFFF_FFFF_FFF0)
    }

    /** The reserved UID that matches any other. */
    predicate IsWildcard() {
      hi == 0xFFFF_FFFF_FFFF_FFFF && lo == 0xFFFF_FFFF_FFFF_FFFA
    }

    function AppendTo(dst: seq<byte>): (s: seq<byte>) {
      dst + BigEndian(hi, 8) + BigEndian(lo, 8)
    }
  }

  const NIL := UID(0, 0)

  /** An identifier is a 128-bit number: the order is that of the numbers, zero is nil, and the top fifteen are reserved. */
  lemma AsNumbers(a: UID, b: UID)
    ensures a.Less(b) <==> a.hi * TWO_64 + a.lo < b.hi * TWO_64 + b.lo
    ensures a.IsNil() <==> a.hi * TWO_64 + a.lo == 0
    ensures a.IsSet() <==> 0 < a.hi * TWO_64 + a.lo < TWO_64 * TWO_64 - 15
    ensures a.IsWildcard() <==> a.hi * TWO_64 + a.lo == TWO_64 * TWO_64 - 6
  {
  }
}
