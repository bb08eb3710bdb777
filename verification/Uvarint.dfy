/** Unsigned LEB128 ("Base 128 Varints", Protocol Buffers encoding specification), as Go's
    encoding/binary writes and reads it. */
module Uvarint {
  import opened Bytes

  function Put(x: nat): (s: seq<byte>)
    ensures |s| >= 1
  {
    if x < 128 then [x] else [x % 128 + 128] + Put(x / 128)
  }

  /** Reads one uvarint off the front of src: its value and width, or None for a truncated or
      overflowing encoding.  `read` bytes have been consumed before src. */
  function GetFrom(src: seq<byte>, read: nat): (r: Option<(nat, nat)>)
    requires read <= 10
    ensures r.Some? ==> 1 <= r.value.1 <= |src| && read + r.value.1 <= 10
    decreases 10 - read
  {
    if src == [] || read == 10 then None
    else if src[0] < 128 then
      if read == 9 && src[0] > 1 then None else Some((src[0], 1))
    else
      match GetFrom(src[1..], read + 1)
      case None => None
      case Some((high, width)) => Some((src[0] - 128 + 128 * high, width + 1))
  }

  function Get(src: seq<byte>): (r: Option<(nat, nat)>)
    ensures r.Some? ==> 1 <= r.value.1 <= |src| && r.value.1 <= 10
  {
    GetFrom(src, 0)
  }

  /** protowire.SizeVarint: the number of 7-bit groups. */
  function Size(x: nat): (n: nat) {
    if x < 128 then 1 else 1 + Size(x / 128)
  }

  lemma {:induction false} SizeIsLength(x: nat)
    ensures |Put(x)| == Size(x)
  {
    if x >= 128 {
      SizeIsLength(x / 128);
    }
  }

  /** Seven bits a byte, the least significant first, each byte but the last marked. */
  lemma {:induction false} PutAt(x: nat, k: nat)
    requires k < |Put(x)|
    ensures Put(x)[k] == x / Pow2(7 * k) % 128 + (if k < |Put(x)| - 1 then 128 else 0)
  {
    if x >= 128 && k > 0 {
      PutAt(x / 128, k - 1);
      Pow2Seven(7 * k);
      DivTwice(x, 128, Pow2(7 * k - 7));
      assert Put(x)[k] == Put(x / 128)[k - 1];
    }
  }

  /** No byte more than the value needs. */
  lemma {:induction false} PutIsShortest(x: nat)
    ensures x < Pow2(7 * |Put(x)|) && (|Put(x)| > 1 ==> Pow2(7 * |Put(x)| - 7) <= x)
  {
    if x < 128 {
      Pow2Values();
    } else {
      hide Pow2;
      var n := |Put(x / 128)|;
      PutIsShortest(x / 128);
      assert |Put(x)| == n + 1;
      Pow2Seven(7 * n + 7);
      if n == 1 {
        Pow2Values();
      } else {
        Pow2Seven(7 * n);
      }
    }
  }

  lemma Pow2Seven(n: nat)
    requires n >= 7
    ensures Pow2(n) == 128 * Pow2(n - 7)
  {
    Pow2Sum(7, n - 7);
    Pow2Values();
  }

  lemma {:induction false} GetFromPut(x: nat, read: nat, rest: seq<byte>)
    requires read <= 9 && x < Pow2(64 - 7 * read)
    ensures GetFrom(Put(x) + rest, read) == Some((x, |Put(x)|))
    decreases 10 - read
  {
    var src := Put(x) + rest;
    if x < 128 {
      assert Pow2(1) == 2;
    } else {
      assert Pow2(1) == 2;
      assert read < 9;
      Pow2Seven(64 - 7 * read);
      assert x / 128 < Pow2(64 - 7 * (read + 1));
      GetFromPut(x / 128, read + 1, rest);
      assert src[1..] == Put(x / 128) + rest;
    }
  }

  /** A reader recovers exactly the 64-bit value written, and its width, whatever follows. */
  lemma RoundTrip(x: nat, rest: seq<byte>)
    requires x < TWO_64
    ensures Get(Put(x) + rest) == Some((x, |Put(x)|))
    ensures |Put(x)| <= 10
  {
    Pow2Values();
    GetFromPut(x, 0, rest);
  }

  lemma {:induction false} GetFromBound(src: seq<byte>, read: nat)
    requires read <= 9
    ensures GetFrom(src, read).Some? ==> GetFrom(src, read).value.0 < Pow2(64 - 7 * read)
    decreases 10 - read
  {
    if GetFrom(src, read).Some? {
      if read == 9 {
        assert Pow2(1) == 2;
      } else {
        Pow2Seven(64 - 7 * read);
        if src[0] >= 128 {
          GetFromBound(src[1..], read + 1);
        }
      }
    }
  }

  /** The first n bytes are a varint: all but the last are marked, and the tenth carries one bit. */
  ghost predicate IsVarint(src: seq<byte>, n: nat, read: nat) {
    && 1 <= n <= |src| && read + n <= 10
    && (forall k | 0 <= k < n - 1 :: src[k] >= 128) && src[n - 1] < 128
    && (read + n == 10 ==> src[n - 1] <= 1)
  }

  ghost function SevenBits(s: seq<byte>): nat {
    if s == [] then 0 else s[0] % 128 + 128 * SevenBits(s[1..])
  }

  lemma {:induction false} GetFromIff(src: seq<byte>, n: nat, read: nat)
    requires read <= 10
    ensures IsVarint(src, n, read) <==> GetFrom(src, read).Some? && GetFrom(src, read).value.1 == n
    ensures IsVarint(src, n, read) ==> GetFrom(src, read).value.0 == SevenBits(src[..n])
    decreases 10 - read
  {
    if src != [] && read < 10 && src[0] >= 128 && n > 0 {
      GetFromIff(src[1..], n - 1, read + 1);
      if IsVarint(src, n, read) {
        assert forall k | 0 <= k < n - 2 :: src[1..][k] == src[k + 1];
        assert src[..n][1..] == src[1..][..n - 1];
      }
      if IsVarint(src[1..], n - 1, read + 1) {
        assert forall k | 0 < k < n :: src[k] == src[1..][k - 1];
      }
    }
  }

  /** Exactly the varints of at most 64 bits are read, padded ones included, and as what they say. */
  lemma GetIff(src: seq<byte>, n: nat)
    ensures IsVarint(src, n, 0) <==> Get(src).Some? && Get(src).value.1 == n
    ensures IsVarint(src, n, 0) ==> Get(src).value.0 == SevenBits(src[..n])
  {
    GetFromIff(src, n, 0);
  }

  /** Everything a reader accepts is a 64-bit value. */
  lemma GetBound(src: seq<byte>)
    ensures Get(src).Some? ==> Get(src).value.0 < TWO_64
  {
    Pow2Values();
    GetFromBound(src, 0);
  }
}
