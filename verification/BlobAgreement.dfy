/** Mint and verify agree, and what a receiver accepts is what was minted. */
module BlobAgreement {
  import opened Bytes
  import opened Uids
  import opened BlobHash
  import opened BlobVerify

  // ---- the shape of a minted manifest ----

  lemma {:induction false} NaiveEntriesLength(kit: BlobKit, stored: seq<byte>, chunk: nat)
    requires chunk > 0
    ensures |NaiveEntries(kit, stored, chunk)| == HASH_SIZE * ((|stored| + chunk - 1) / chunk)
    decreases |stored|
  {
    if stored == [] {
      DivLess(chunk - 1, chunk);
    } else if |stored| <= chunk {
      DivLess(|stored| - 1, chunk);
      DivStep(|stored| - 1, chunk);
      NaiveEntriesLength(kit, stored[|stored|..], chunk);
    } else {
      NaiveEntriesLength(kit, stored[chunk..], chunk);
      DivStep(|stored| - chunk + chunk - 1, chunk);
    }
  }

  function Minted(kit: BlobKit, stored: seq<byte>): (meta: BlobMeta)
    requires 4096 < |stored| <= 0x4_0000_0000_0000
  {
    NaiveMeta(kit, stored).value
  }

  lemma MintedShape(kit: BlobKit, stored: seq<byte>)
    requires 4096 < |stored| <= 0x4_0000_0000_0000
    ensures var meta := Minted(kit, stored);
      && CHUNK_LOG2_MIN <= meta.chunkSizeLog2 <= CHUNK_LOG2_MAX && meta.totalLen == |stored|
      && |meta.chunkHashes| == HASH_SIZE * ChunkCount(meta.totalLen, meta.chunkSizeLog2)
      && NumChunks(meta) == ChunkCount(meta.totalLen, meta.chunkSizeLog2) > 0
  {
    var chunk := Pow2(Minted(kit, stored).chunkSizeLog2);
    NaiveEntriesLength(kit, stored, chunk);
    DivStep(|stored| - 1, chunk);
  }

  // ---- chunk spans ----

  lemma {:induction false} Pow2Monotone(a: nat, b: nat)
    requires a <= b
    ensures Pow2(a) <= Pow2(b)
    decreases b
  {
    if a < b {
      Pow2Monotone(a, b - 1);
    }
  }

  lemma Pow2Bounds(n: nat)
    requires CHUNK_LOG2_MIN <= n <= CHUNK_LOG2_MAX
    ensures 0x10_0000 <= Pow2(n) <= 0x4000_0000
  {
    Pow2Monotone(CHUNK_LOG2_MIN, n);
    Pow2Monotone(n, CHUNK_LOG2_MAX);
    Pow2Values();
  }

  /** A manifest whose shape the receiver's gate admits. */
  ghost predicate WellShaped(meta: BlobMeta) {
    && CHUNK_LOG2_MIN <= meta.chunkSizeLog2 <= CHUNK_LOG2_MAX
    && GRAIN_SIZE < meta.totalLen <= LEN_MAX
    && |meta.chunkHashes| == HASH_SIZE * ChunkCount(meta.totalLen, meta.chunkSizeLog2)
  }

  lemma CountBounds(storedLen: nat, chunk: nat)
    requires chunk > 0 && storedLen > 0
    ensures var count := (storedLen + chunk - 1) / chunk;
      count > 0 && (count - 1) * chunk < storedLen <= count * chunk
  {
    var count := (storedLen + chunk - 1) / chunk;
    assert count * chunk <= storedLen + chunk - 1 < count * chunk + chunk;
    assert (count - 1) * chunk == count * chunk - chunk;
  }

  lemma IndexOffset(i: nat, count: nat, chunk: nat)
    requires i < count
    ensures 0 <= i * chunk <= (count - 1) * chunk && (i + 1) * chunk == i * chunk + chunk
    ensures i + 1 < count ==> (i + 1) * chunk <= (count - 1) * chunk
  {
  }

  /** In range, no 64-bit wrap: chunk i starts at i * 2^log2 and runs to the next or to the end. */
  lemma SpanExact(meta: BlobMeta, i: nat)
    requires WellShaped(meta) && i < NumChunks(meta)
    ensures var chunk := Pow2(meta.chunkSizeLog2);
      ChunkSpan(meta, i) == (i * chunk, Min(chunk, meta.totalLen - i * chunk)) && i * chunk < meta.totalLen
  {
    var chunk := Pow2(meta.chunkSizeLog2);
    Pow2Bounds(meta.chunkSizeLog2);
    CountBounds(meta.totalLen, chunk);
    IndexOffset(i, NumChunks(meta), chunk);
  }

  /** The chunks tile [0, totalLen): no gap, no overlap, none empty. */
  lemma SpansTile(meta: BlobMeta, i: nat)
    requires WellShaped(meta) && i < NumChunks(meta)
    ensures ChunkSpan(meta, 0).0 == 0
    ensures ChunkSpan(meta, i).1 > 0
    ensures ChunkSpan(meta, i).0 + ChunkSpan(meta, i).1
      == if i + 1 < NumChunks(meta) then ChunkSpan(meta, i + 1).0 else meta.totalLen
  {
    var chunk := Pow2(meta.chunkSizeLog2);
    SpanExact(meta, i);
    SpanExact(meta, 0);
    CountBounds(meta.totalLen, chunk);
    IndexOffset(i, NumChunks(meta), chunk);
    if i + 1 < NumChunks(meta) {
      SpanExact(meta, i + 1);
    }
  }

  predicate InChunk(meta: BlobMeta, i: nat, position: int) {
    ChunkSpan(meta, i).0 <= position < ChunkSpan(meta, i).0 + ChunkSpan(meta, i).1
  }

  lemma DivIff(position: nat, chunk: nat, i: nat)
    requires chunk > 0
    ensures i * chunk <= position < i * chunk + chunk <==> i == position / chunk
  {
    if i * chunk <= position < i * chunk + chunk {
      DivUnique(position, chunk, i);
    }
  }

  lemma InOnlyThatChunk(meta: BlobMeta, i: nat, position: nat)
    requires WellShaped(meta) && position < meta.totalLen && i < NumChunks(meta)
    ensures InChunk(meta, i, position) <==> i == position / Pow2(meta.chunkSizeLog2)
  {
    hide Pow2, ChunkSpan;
    SpanExact(meta, i);
    DivIff(position, Pow2(meta.chunkSizeLog2), i);
  }

  /** Every stored byte lies in exactly one chunk, the one its index shift names. */
  lemma EveryByteInOneChunk(meta: BlobMeta, position: nat)
    requires WellShaped(meta) && position < meta.totalLen
    ensures position / Pow2(meta.chunkSizeLog2) < NumChunks(meta)
    ensures forall i: nat | i < NumChunks(meta) ::
      InChunk(meta, i, position) <==> i == position / Pow2(meta.chunkSizeLog2)
  {
    hide Pow2, InChunk;
    var chunk := Pow2(meta.chunkSizeLog2);
    var k := position / chunk;
    CountBounds(meta.totalLen, chunk);
    if k >= NumChunks(meta) {
      MulMonotone(NumChunks(meta), k, chunk);
      assert false;
    }
    forall i: nat | i < NumChunks(meta)
      ensures InChunk(meta, i, position) <==> i == k
    {
      InOnlyThatChunk(meta, i, position);
    }
  }

  // ---- every chunk of a minted blob passes every gate ----

  /** Chunk i of the stored bytes. */
  function ChunkBytes(stored: seq<byte>, chunk: nat, i: nat): seq<byte>
    requires i * chunk <= |stored|
  {
    stored[i * chunk..i * chunk + Min(chunk, |stored| - i * chunk)]
  }

  lemma {:induction false} EntryAt(kit: BlobKit, stored: seq<byte>, chunk: nat, i: nat)
    requires chunk > 0 && i * chunk < |stored|
    ensures var entries := NaiveEntries(kit, stored, chunk);
      && HASH_SIZE * i + HASH_SIZE <= |entries|
      && entries[HASH_SIZE * i..HASH_SIZE * i + HASH_SIZE] == RunEntry(kit, GrainRun(kit, ChunkBytes(stored, chunk, i)))
    decreases i
  {
    hide RunEntry, GrainRun, ChunkBytes;
    if i > 0 {
      IndexOffset(i - 1, i, chunk);
      var rest := stored[chunk..];
      ChunkOfRest(stored, chunk, i);
      EntryAt(kit, rest, chunk, i - 1);
      var first := RunEntry(kit, GrainRun(kit, stored[..chunk]));
      SliceBehind(first, NaiveEntries(kit, rest, chunk), HASH_SIZE * (i - 1), HASH_SIZE * i);
    } else {
      assert ChunkBytes(stored, chunk, 0) == stored[..Min(chunk, |stored|)] by { FirstChunk(stored, chunk); }
    }
  }

  lemma FirstChunk(stored: seq<byte>, chunk: nat)
    ensures ChunkBytes(stored, chunk, 0) == stored[..Min(chunk, |stored|)]
  {
    assert 0 * chunk == 0;
  }

  lemma ChunkOfRest(stored: seq<byte>, chunk: nat, i: nat)
    requires i > 0 && (i - 1) * chunk + chunk == i * chunk <= |stored| && chunk <= |stored|
    ensures ChunkBytes(stored[chunk..], chunk, i - 1) == ChunkBytes(stored, chunk, i)
  {
  }

  lemma SliceBehind(head: seq<byte>, tail: seq<byte>, start: nat, end: nat)
    requires start <= end <= |tail|
    ensures (head + tail)[|head| + start..|head| + end] == tail[start..end]
  {
  }

  /** What a minted manifest holds, in terms of the hash alone: for each chunk the digest of a tag byte and the chunk's
      grain digests. */
  lemma MintedInFull(kit: BlobKit, stored: seq<byte>, i: nat)
    requires 4096 < |stored| <= 0x4_0000_0000_0000 && i * Pow2(Chosen(|stored|)) < |stored|
    ensures NaiveMeta(kit, stored).Some? && NaiveMeta(kit, stored).value.chunkSizeLog2 == Chosen(|stored|)
    ensures var entries, chunk := NaiveMeta(kit, stored).value.chunkHashes, ChunkBytes(stored, Pow2(Chosen(|stored|)), i);
      && 32 * i + 32 <= |entries|
      && entries[32 * i..32 * i + 32] == kit.sum([1] + GrainRun(kit, chunk))[..32]
  {
    hide Chosen;
    EntryAt(kit, stored, Pow2(Chosen(|stored|)), i);
  }

  /** And of those, each is the digest of one 4096-byte grain. */
  lemma {:induction false} GrainDigestAt(kit: BlobKit, chunk: seq<byte>, g: nat)
    requires 4096 * g < |chunk|
    ensures var run := GrainRun(kit, chunk);
      && |run| == 32 * ((|chunk| + 4095) / 4096) && 32 * g + 32 <= |run|
      && run[32 * g..32 * g + 32] == kit.sum(chunk[4096 * g..Min(4096 * g + 4096, |chunk|)])[..32]
    decreases g
  {
    GrainRunLength(kit, chunk);
    if g > 0 {
      var rest := chunk[4096..];
      GrainDigestAt(kit, rest, g - 1);
      SliceBehind(Digest(kit, chunk[..4096]), GrainRun(kit, rest), 32 * (g - 1), 32 * g);
      var end := Min(4096 * g + 4096, |chunk|);
      assert end - 4096 == Min(4096 * g, |rest|);
      assert chunk == chunk[..4096] + rest;
      SliceBehind(chunk[..4096], rest, 4096 * (g - 1), end - 4096);
    }
  }

  lemma MintedChunk(kit: BlobKit, stored: seq<byte>, i: nat)
    requires 4096 < |stored| <= 0x4_0000_0000_0000 && i < NumChunks(Minted(kit, stored))
    ensures var meta := Minted(kit, stored);
      var (offset, length) := ChunkSpan(meta, i);
      && 0 <= offset && 0 < length && offset + length <= |stored|
      && ChunkHash(meta, i) == ChunkEntry(kit, stored[offset..offset + length])
  {
    hide Pow2, ChunkSpan, Chosen, GrainRun;
    var meta := Minted(kit, stored);
    MintedShape(kit, stored);
    SpanExact(meta, i);
    EntryAt(kit, stored, Pow2(meta.chunkSizeLog2), i);
  }

  lemma EntryPasses(kit: BlobKit, chunk: seq<byte>, entry: seq<byte>)
    requires chunk != [] && entry == ChunkEntry(kit, chunk)
    ensures VerifyGrainRun(kit, entry, GrainRun(kit, chunk)) == Ok(())
  {
    GrainRunLength(kit, chunk);
  }

  /** Every chunk of the minted blob passes VerifyChunk, and its digest run VerifyGrainRun. */
  lemma MintedChunkVerifies(kit: BlobKit, stored: seq<byte>, i: nat)
    requires 4096 < |stored| <= 0x4_0000_0000_0000 && i < NumChunks(Minted(kit, stored))
    ensures var meta := Minted(kit, stored);
      var (offset, length) := ChunkSpan(meta, i);
      && 0 <= offset <= offset + length <= |stored|
      && CheckChunk(meta, i, stored[offset..offset + length], kit) == Ok(())
      && VerifyGrainRun(kit, ChunkHash(meta, i), GrainRun(kit, stored[offset..offset + length])) == Ok(())
  {
    MintedChunk(kit, stored, i);
    var meta := Minted(kit, stored);
    var (offset, length) := ChunkSpan(meta, i);
    EntryPasses(kit, stored[offset..offset + length], ChunkHash(meta, i));
  }

  /** A ref stamped from the minted manifest accepts it exactly when the root is not the nil UID,
      which a ref reads as "no manifest". */
  lemma StampedRefVerifies(kit: BlobKit, stored: seq<byte>, ref: BlobRef)
    requires 4096 < |stored| <= 0x4_0000_0000_0000
    requires ref.storedLen.Some? ==> ref.storedLen.value == |stored|
    ensures var meta := Minted(kit, stored);
      VerifyBlobMeta(SetBlobMeta(ref, meta, kit), Some(meta), kit)
        == if RootUID(kit, meta).IsNil() then Err(NoCommitment) else Ok(())
  {
    hide Minted, RootUID, Pow2;
    MintedShape(kit, stored);
  }

  /** The receiver's bound on a manifest pull is the minted manifest's exact size. */
  lemma MintedWireSize(kit: BlobKit, stored: seq<byte>)
    requires 4096 < |stored| <= 0x4_0000_0000_0000
    ensures |CanonicalBytes(Minted(kit, stored))| == WireSize(|stored|, Minted(kit, stored).chunkSizeLog2)
  {
    MintedShape(kit, stored);
    WireSizeExact(Minted(kit, stored));
  }

  // ---- what is accepted was minted, or the hash has collided ----

  function Grain(chunk: seq<byte>, g: nat): seq<byte>
    requires g * GRAIN_SIZE < |chunk|
  {
    chunk[g * GRAIN_SIZE..Min((g + 1) * GRAIN_SIZE, |chunk|)]
  }

  /** Two different inputs with the same 32-byte digest. */
  ghost predicate Collide(kit: BlobKit, a: seq<byte>, b: seq<byte>) {
    a != b && kit.sum(a)[..32] == kit.sum(b)[..32]
  }

  /** Two different inputs the verifier hashes for these chunks, tagged runs or grains, collide. */
  ghost predicate ChunkCollision(kit: BlobKit, a: seq<byte>, b: seq<byte>) {
    || RunCollision(kit, GrainRun(kit, a), GrainRun(kit, b))
    || exists g: nat | g * GRAIN_SIZE < |a| && g * GRAIN_SIZE < |b| :: Collide(kit, Grain(a, g), Grain(b, g))
  }

  ghost predicate RunCollision(kit: BlobKit, a: seq<byte>, b: seq<byte>) {
    Collide(kit, [1] + a, [1] + b)
  }

  /** The canonical bytes of two different manifests share the leading 16 bytes of their digests. */
  ghost predicate RootCollision(kit: BlobKit, a: BlobMeta, b: BlobMeta) {
    CanonicalBytes(a) != CanonicalBytes(b) && kit.sum(CanonicalBytes(a))[..16] == kit.sum(CanonicalBytes(b))[..16]
  }

  lemma {:induction false} DifferentGrain(kit: BlobKit, a: seq<byte>, b: seq<byte>) returns (g: nat)
    requires |a| == |b| && a != b && GrainRun(kit, a) == GrainRun(kit, b)
    ensures g * GRAIN_SIZE < |a| && Collide(kit, Grain(a, g), Grain(b, g))
    decreases |a|
  {
    hide GrainRun, Digest, Grain;
    var span := Min(GRAIN_SIZE, |a|);
    if a != [] {
      FirstGrain(kit, a);
      FirstGrain(kit, b);
    }
    if a[..span] != b[..span] {
      g := 0;
      SameDigest(kit, a[..span], b[..span]);
    } else {
      assert a == a[..span] + a[span..] && b == b[..span] + b[span..];
      var h := DifferentGrain(kit, a[span..], b[span..]);
      g := h + 1;
      LaterGrain(a, h);
      LaterGrain(b, h);
    }
  }

  lemma SameDigest(kit: BlobKit, a: seq<byte>, b: seq<byte>)
    requires Digest(kit, a) == Digest(kit, b)
    ensures kit.sum(a)[..32] == kit.sum(b)[..32]
  {
  }

  lemma SameEntry(kit: BlobKit, a: seq<byte>, b: seq<byte>)
    requires RunEntry(kit, a) == RunEntry(kit, b) && a != b
    ensures RunCollision(kit, a, b)
  {
    SameDigest(kit, [1] + a, [1] + b);
    assert ([1] + a)[1..] == a && ([1] + b)[1..] == b;
  }

  lemma FirstGrain(kit: BlobKit, chunk: seq<byte>)
    requires chunk != []
    ensures var span := Min(GRAIN_SIZE, |chunk|);
      && Grain(chunk, 0) == chunk[..span] && |GrainRun(kit, chunk)| >= HASH_SIZE
      && GrainRun(kit, chunk)[..HASH_SIZE] == Digest(kit, chunk[..span])
      && GrainRun(kit, chunk)[HASH_SIZE..] == GrainRun(kit, chunk[span..])
  {
  }

  lemma LaterGrain(chunk: seq<byte>, g: nat)
    requires GRAIN_SIZE <= |chunk| && g * GRAIN_SIZE < |chunk| - GRAIN_SIZE
    ensures Grain(chunk, g + 1) == Grain(chunk[GRAIN_SIZE..], g)
  {
  }

  lemma EntryBinds(kit: BlobKit, a: seq<byte>, b: seq<byte>)
    requires |a| == |b| > 0 && ChunkEntry(kit, a) == ChunkEntry(kit, b)
    ensures a == b || ChunkCollision(kit, a, b)
  {
    if GrainRun(kit, a) != GrainRun(kit, b) {
      SameEntry(kit, GrainRun(kit, a), GrainRun(kit, b));
    } else if a != b {
      var g := DifferentGrain(kit, a, b);
    }
  }

  /** VerifyChunk under the minted manifest accepts only the original bytes of the chunk, unless
      two inputs it hashed collide. */
  lemma OnlyOriginalChunk(kit: BlobKit, stored: seq<byte>, i: nat, chunk: seq<byte>)
    requires 4096 < |stored| <= 0x4_0000_0000_0000 && CheckChunk(Minted(kit, stored), i, chunk, kit).Ok?
    ensures var (offset, length) := ChunkSpan(Minted(kit, stored), i);
      && 0 <= offset <= offset + length <= |stored|
      && (chunk == stored[offset..offset + length] || ChunkCollision(kit, chunk, stored[offset..offset + length]))
  {
    hide Minted, ChunkSpan, ChunkEntry, ChunkCollision;
    MintedChunk(kit, stored, i);
    var (offset, length) := ChunkSpan(Minted(kit, stored), i);
    EntryBinds(kit, chunk, stored[offset..offset + length]);
  }

  lemma RunBinds(kit: BlobKit, chunk: seq<byte>, run: seq<byte>)
    requires chunk != [] && VerifyGrainRun(kit, ChunkEntry(kit, chunk), run).Ok?
    ensures run == GrainRun(kit, chunk) || RunCollision(kit, run, GrainRun(kit, chunk))
  {
    hide GrainRun, RunCollision;
    if run != GrainRun(kit, chunk) {
      SameEntry(kit, run, GrainRun(kit, chunk));
    }
  }

  /** A digest run accepted for a chunk is that chunk's run, or two runs collide. */
  lemma OnlyOriginalRun(kit: BlobKit, stored: seq<byte>, i: nat, run: seq<byte>)
    requires 4096 < |stored| <= 0x4_0000_0000_0000 && i < NumChunks(Minted(kit, stored))
    requires VerifyGrainRun(kit, ChunkHash(Minted(kit, stored), i), run).Ok?
    ensures var (offset, length) := ChunkSpan(Minted(kit, stored), i);
      && 0 <= offset <= offset + length <= |stored|
      && var original := GrainRun(kit, stored[offset..offset + length]);
         (run == original || RunCollision(kit, run, original))
  {
    hide GrainRun, RunCollision, Minted, ChunkSpan, ChunkEntry, VerifyGrainRun, NumChunks, ChunkHash;
    MintedChunk(kit, stored, i);
    var (offset, length) := ChunkSpan(Minted(kit, stored), i);
    RunBinds(kit, stored[offset..offset + length], run);
  }

  /** The whole chain of trust: from the signed ref, through whatever manifest arrived, to the
      bytes of a chunk.  What a receiver accepts is what the author stored, or a collision is in hand. */
  lemma RefAuthenticatesChunks(kit: BlobKit, stored: seq<byte>, ref: BlobRef, arrived: BlobMeta, i: nat, chunk: seq<byte>)
    requires 4096 < |stored| <= 0x4_0000_0000_0000 && |arrived.chunkHashes| < TWO_64
    requires VerifyBlobMeta(SetBlobMeta(ref, Minted(kit, stored), kit), Some(arrived), kit).Ok?
    requires CheckChunk(arrived, i, chunk, kit).Ok?
    ensures
      || RootCollision(kit, arrived, Minted(kit, stored))
      || (&& arrived == Minted(kit, stored)
          && var (offset, length) := ChunkSpan(arrived, i);
          && 0 <= offset <= offset + length <= |stored|
          && (chunk == stored[offset..offset + length] || ChunkCollision(kit, chunk, stored[offset..offset + length])))
  {
    hide CheckChunk, ChunkCollision, Minted, ChunkSpan, Pow2, CanonicalBytes, WellShaped;
    var minted := Minted(kit, stored);
    MintedShape(kit, stored);
    UidOfInjective(RootBytes(kit, arrived), RootBytes(kit, minted));
    if !RootCollision(kit, arrived, minted) {
      ShapeBound(minted);
      CanonicalInjective(arrived, minted);
      OnlyOriginalChunk(kit, stored, i, chunk);
    }
  }

  lemma ShapeBound(meta: BlobMeta)
    requires WellShaped(meta)
    ensures |meta.chunkHashes| < TWO_64
  {
    Pow2Bounds(meta.chunkSizeLog2);
    CountBounds(meta.totalLen, Pow2(meta.chunkSizeLog2));
    var count := ChunkCount(meta.totalLen, meta.chunkSizeLog2);
    MulMonotone(1, Pow2(meta.chunkSizeLog2), count - 1);
  }
}
