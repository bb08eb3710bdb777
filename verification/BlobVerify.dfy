/** The receiver's side of a blob: the canonical manifest encoding, its root commitment, and the
    gates a manifest, a digest run and a chunk must pass before they are trusted. */
module BlobVerify {
  import opened Bytes
  import opened Uids
  import opened BlobHash
  import Uvarint

  // ---- chunk address arithmetic ----

  function ChunkSpan(meta: BlobMeta, chunkIndex: nat): (span: (int, int)) {
    var offset := Wrap64(chunkIndex * Pow2(meta.chunkSizeLog2));
    var length := Wrap64(Pow2(meta.chunkSizeLog2));
    var remainder := Wrap64(ToInt64(meta.totalLen) - offset);
    (offset, if remainder < length then remainder else length)
  }

  function NumChunks(meta: BlobMeta): nat {
    |meta.chunkHashes| / HASH_SIZE
  }

  function ChunkHash(meta: BlobMeta, chunkIndex: nat): seq<byte>
    requires chunkIndex < NumChunks(meta)
  {
    meta.chunkHashes[chunkIndex * HASH_SIZE..chunkIndex * HASH_SIZE + HASH_SIZE]
  }

  // ---- canonical bytes ----

  function VarintField(tag: byte, value: nat): seq<byte> {
    if value == 0 then [] else [tag] + Uvarint.Put(value)
  }

  function CanonicalBytes(meta: BlobMeta): seq<byte> {
    VarintField(0x08, meta.chunkSizeLog2)
    + (VarintField(0x10, meta.totalLen)
       + (VarintField(0x1A, |meta.chunkHashes|) + meta.chunkHashes))
  }

  function WireSize(storedLen: nat, chunkSizeLog2: nat): nat {
    var hashesLen := ChunkCount(storedLen, chunkSizeLog2) * HASH_SIZE;
    (if chunkSizeLog2 != 0 then 1 + Uvarint.Size(chunkSizeLog2) else 0)
    + (if storedLen != 0 then 1 + Uvarint.Size(storedLen) else 0)
    + (if hashesLen > 0 then 1 + Uvarint.Size(hashesLen) + hashesLen else 0)
  }

  /** Reads an optional tagged varint off the front of src. */
  function TakeField(tag: byte, src: seq<byte>): (nat, seq<byte>) {
    if src == [] || src[0] != tag then (0, src) else
    match Uvarint.Get(src[1..])
    case None => (0, src)
    case Some((value, width)) => (value, src[1 + width..])
  }

  lemma TakeFieldInverse(tag: byte, value: nat, rest: seq<byte>)
    requires value < TWO_64 && (rest != [] && value == 0 ==> rest[0] != tag)
    ensures TakeField(tag, VarintField(tag, value) + rest) == (value, rest)
  {
    var src := VarintField(tag, value) + rest;
    if value == 0 {
      assert src == rest;
    } else {
      hide Uvarint.Put, Uvarint.Get;
      var put := Uvarint.Put(value);
      assert src == [tag] + put + rest && src[1..] == put + rest;
      Uvarint.RoundTrip(value, rest);
      assert src[1 + |put|..] == rest;
    }
  }

  /** The canonical encoding loses nothing: two manifests with the same bytes are the same. */
  lemma CanonicalInjective(a: BlobMeta, b: BlobMeta)
    requires |a.chunkHashes| < TWO_64 && |b.chunkHashes| < TWO_64
    requires CanonicalBytes(a) == CanonicalBytes(b)
    ensures a == b
  {
    CanonicalFields(a);
    CanonicalFields(b);
  }

  lemma CanonicalFields(meta: BlobMeta)
    requires |meta.chunkHashes| < TWO_64
    ensures var (log2, afterLog2) := TakeField(0x08, CanonicalBytes(meta));
            var (total, afterTotal) := TakeField(0x10, afterLog2);
            var (length, hashes) := TakeField(0x1A, afterTotal);
            log2 == meta.chunkSizeLog2 && total == meta.totalLen && hashes == meta.chunkHashes
  {
    var hashes := VarintField(0x1A, |meta.chunkHashes|) + meta.chunkHashes;
    var total := VarintField(0x10, meta.totalLen) + hashes;
    assert hashes != [] ==> hashes[0] == 0x1A;
    assert total != [] ==> total[0] == 0x10 || total[0] == 0x1A;
    TakeFieldInverse(0x08, meta.chunkSizeLog2, total);
    TakeFieldInverse(0x10, meta.totalLen, hashes);
    TakeFieldInverse(0x1A, |meta.chunkHashes|, meta.chunkHashes);
  }

  /** The size a receiver computes from the signed ref alone is the size of a well-shaped manifest. */
  lemma WireSizeExact(meta: BlobMeta)
    requires |meta.chunkHashes| == HASH_SIZE * ChunkCount(meta.totalLen, meta.chunkSizeLog2)
    ensures |CanonicalBytes(meta)| == WireSize(meta.totalLen, meta.chunkSizeLog2)
  {
    Uvarint.SizeIsLength(meta.chunkSizeLog2);
    Uvarint.SizeIsLength(meta.totalLen);
    Uvarint.SizeIsLength(|meta.chunkHashes|);
  }

  // ---- root commitment ----

  /** The leading 16 bytes of the digest. */
  function RootBytes(kit: BlobKit, meta: BlobMeta): (root: seq<byte>)
    ensures |root| == 16
  {
    kit.sum(CanonicalBytes(meta))[..16]
  }

  function UidOf(bytes: seq<byte>): UID
    requires |bytes| == 16
  {
    FromBigEndian8(bytes[..8]);
    FromBigEndian8(bytes[8..]);
    UID(FromBigEndian(bytes[..8]), FromBigEndian(bytes[8..]))
  }

  function RootUID(kit: BlobKit, meta: BlobMeta): UID {
    UidOf(RootBytes(kit, meta))
  }

  lemma {:induction false} FromBigEndianInjective(a: seq<byte>, b: seq<byte>)
    requires |a| == |b| && FromBigEndian(a) == FromBigEndian(b)
    ensures a == b
  {
    if a != [] {
      FromBigEndianInjective(a[..|a| - 1], b[..|b| - 1]);
      assert a == a[..|a| - 1] + [a[|a| - 1]];
      assert b == b[..|b| - 1] + [b[|b| - 1]];
    }
  }

  lemma UidOfInjective(a: seq<byte>, b: seq<byte>)
    requires |a| == |b| == 16 && UidOf(a) == UidOf(b)
    ensures a == b
  {
    FromBigEndianInjective(a[..8], b[..8]);
    FromBigEndianInjective(a[8..], b[8..]);
    assert a == a[..8] + a[8..] && b == b[..8] + b[8..];
  }

  /** What a ref commits to; storedLen is BlobTag.I when the ref carries a BlobTag. */
  datatype BlobRef = BlobRef(metaRoot: UID, chunkSizeLog2: u32, storedLen: Option<int>)

  function SetBlobMeta(ref: BlobRef, meta: BlobMeta, kit: BlobKit): BlobRef {
    ref.(metaRoot := RootUID(kit, meta), chunkSizeLog2 := meta.chunkSizeLog2)
  }

  datatype VerifyError =
    | NoCommitment | NilMeta | ExponentMismatch | ExponentBounds | TotalLenMismatch | UnderOneGrain
    | EntryCount | RootMismatch | IndexOutOfRange | WrongLength | HashMismatch | NotDigestMultiple

  function VerifyBlobMeta(ref: BlobRef, meta: Option<BlobMeta>, kit: BlobKit): Result<(), VerifyError> {
    if ref.metaRoot.IsNil() then Err(NoCommitment)
    else if meta.None? then Err(NilMeta)
    else
      var m := meta.value;
      if m.chunkSizeLog2 != ref.chunkSizeLog2 then Err(ExponentMismatch)
      else if m.chunkSizeLog2 < CHUNK_LOG2_MIN || m.chunkSizeLog2 > CHUNK_LOG2_MAX then Err(ExponentBounds)
      else if ref.storedLen.Some? && m.totalLen != ref.storedLen.value % TWO_64 then Err(TotalLenMismatch)
      else if m.totalLen <= GRAIN_SIZE then Err(UnderOneGrain)
      else if |m.chunkHashes| != ChunkCount(ToInt64(m.totalLen), m.chunkSizeLog2) * HASH_SIZE then Err(EntryCount)
      else if RootUID(kit, m) != ref.metaRoot then Err(RootMismatch)
      else Ok(())
  }

  // ---- chunk hashing ----

  /** The meta entry BlobChunkHasher gives a chunk; an empty chunk counts as one empty grain. */
  function ChunkEntry(kit: BlobKit, chunk: seq<byte>): (entry: seq<byte>) {
    RunEntry(kit, if chunk == [] then Digest(kit, []) else GrainRun(kit, chunk))
  }

  class BlobChunkHasher {
    const kit: BlobKit
    var fine: seq<byte>         // level 0: fed since the last reset
    var compose: seq<byte>      // level 1: fed since the last reset
    var inGrain: nat            // bytes fed into the current (partial) grain
    var tagged: bool            // compose tag written for the current chunk
    ghost var closed: seq<byte> // the current chunk's closed grains

    constructor (kit: BlobKit)
      ensures Valid() && Chunk() == [] && this.kit == kit
    {
      this.kit := kit;
      fine, compose, inGrain, tagged, closed := [], [], 0, false, [];
    }

    ghost predicate Valid()
      reads this
    {
      && inGrain == |fine| < GRAIN_SIZE
      && |closed| % GRAIN_SIZE == 0
      && tagged == (closed != [])
      && (tagged ==> compose == [COMPOSE_TAG] + GrainRun(kit, closed))
    }

    /** The bytes of the current chunk. */
    ghost function Chunk(): seq<byte>
      reads this
    {
      closed + fine
    }

    method Write(chunk: seq<byte>)
      requires Valid()
      modifies this
      ensures Valid() && Chunk() == old(Chunk()) + chunk
    {
      hide GrainRun, Digest;
      var rest := chunk;
      while rest != []
        invariant Valid() && Chunk() + rest == old(Chunk()) + chunk
        decreases |rest|
      {
        var span := Min(GRAIN_SIZE - inGrain, |rest|);
        TakeSpan(closed, fine, rest, span);
        fine := fine + rest[..span];
        inGrain := inGrain + span;
        rest := rest[span..];
        if inGrain == GRAIN_SIZE {
          FinishGrain();
        }
      }
    }

    method FinishGrain()
      requires inGrain == |fine| <= GRAIN_SIZE && |closed| % GRAIN_SIZE == 0
      requires tagged == (closed != []) && (tagged ==> compose == [COMPOSE_TAG] + GrainRun(kit, closed))
      requires fine == [] ==> closed == []
      modifies this
      ensures fine == [] && inGrain == 0 && tagged && closed == old(closed + fine)
      ensures compose == [COMPOSE_TAG] + (if closed == [] then Digest(kit, []) else GrainRun(kit, closed))
    {
      hide Digest;
      RunGrows(kit, closed, fine);
      assert tagged ==> compose + Digest(kit, fine) == [COMPOSE_TAG] + (GrainRun(kit, closed) + Digest(kit, fine));
      var digest := Digest(kit, fine);
      closed := closed + fine;
      fine := [];
      inGrain := 0;
      if !tagged {
        compose := [COMPOSE_TAG];
        tagged := true;
      }
      compose := compose + digest;
    }

    method SumChunk() returns (entry: seq<byte>)
      requires Valid()
      modifies this
      ensures entry == ChunkEntry(kit, old(Chunk()))
      ensures Valid() && Chunk() == []
    {
      hide Digest, GrainRun;
      assert fine == [] ==> closed + fine == closed;
      if inGrain > 0 || !tagged {
        FinishGrain();
      }
      entry := Digest(kit, compose);
      tagged := false;
      closed := [];
    }

    method Reset()
      modifies this
      ensures Valid() && Chunk() == []
    {
      fine, inGrain, tagged, closed := [], 0, false, [];
    }
  }

  lemma RunGrows(kit: BlobKit, closed: seq<byte>, grain: seq<byte>)
    requires |grain| <= GRAIN_SIZE && |closed| % GRAIN_SIZE == 0
    ensures grain != [] ==> GrainRun(kit, closed + grain) == GrainRun(kit, closed) + Digest(kit, grain)
    ensures GrainRun(kit, []) == [] && [] + Digest(kit, grain) == Digest(kit, grain)
  {
    if grain != [] {
      GrainClosed(kit, closed, grain);
    }
  }

  /** The chunk's digest run, derived grain by grain. */
  method BlobGrainRun(kit: BlobKit, chunk: seq<byte>) returns (run: seq<byte>)
    ensures run == GrainRun(kit, chunk)
  {
    hide Digest;
    var rest := chunk;
    run := [];
    while rest != []
      invariant run + GrainRun(kit, rest) == GrainRun(kit, chunk)
      decreases |rest|
    {
      var span := Min(GRAIN_SIZE, |rest|);
      run := run + Digest(kit, rest[..span]);
      rest := rest[span..];
    }
  }

  function VerifyGrainRun(kit: BlobKit, entry: seq<byte>, run: seq<byte>): Result<(), VerifyError> {
    if run == [] || |run| % HASH_SIZE != 0 then Err(NotDigestMultiple)
    else if Digest(kit, [COMPOSE_TAG] + run) != entry then Err(HashMismatch)
    else Ok(())
  }

  function CheckChunk(meta: BlobMeta, chunkIndex: nat, chunk: seq<byte>, kit: BlobKit): Result<(), VerifyError> {
    if chunkIndex >= NumChunks(meta) then Err(IndexOutOfRange)
    else if |chunk| != ChunkSpan(meta, chunkIndex).1 then Err(WrongLength)
    else if ChunkEntry(kit, chunk) != ChunkHash(meta, chunkIndex) then Err(HashMismatch)
    else Ok(())
  }

  method VerifyChunk(meta: BlobMeta, chunkIndex: nat, chunk: seq<byte>, kit: BlobKit)
    returns (r: Result<(), VerifyError>)
    ensures r == CheckChunk(meta, chunkIndex, chunk, kit)
  {
    hide ChunkEntry, GrainRun;
    if chunkIndex >= NumChunks(meta) {
      return Err(IndexOutOfRange);
    }
    var (_, wantLen) := ChunkSpan(meta, chunkIndex);
    if |chunk| != wantLen {
      return Err(WrongLength);
    }
    var hasher := new BlobChunkHasher(kit);
    hasher.Write(chunk);
    assert hasher.Chunk() == chunk;
    var entry := hasher.SumChunk();
    if entry != ChunkHash(meta, chunkIndex) {
      return Err(HashMismatch);
    }
    return Ok(());
  }

  // ---- what the checks accept ----

  /** A manifest is accepted exactly when the ref commits to one, exponents agree and are in bounds, the length is the
      stored one and over a grain, there is one digest per chunk, and the root is the leading 16 digest bytes. */
  lemma MetaAcceptedIff(ref: BlobRef, meta: Option<BlobMeta>, kit: BlobKit)
    ensures VerifyBlobMeta(ref, meta, kit).Ok? <==>
      && ref.metaRoot != UID(0, 0) && meta.Some?
      && var m := meta.value;
      && m.chunkSizeLog2 == ref.chunkSizeLog2 && 20 <= m.chunkSizeLog2 <= 30
      && (ref.storedLen.Some? ==> m.totalLen == ref.storedLen.value % 0x1_0000_0000_0000_0000) && m.totalLen > 4096
      && |m.chunkHashes| == 32 * (if m.totalLen >= 0x8000_0000_0000_0000 then 0
                                  else (m.totalLen + Pow2(m.chunkSizeLog2) - 1) / Pow2(m.chunkSizeLog2))
      && var root := kit.sum(CanonicalBytes(m))[..16];
      && ref.metaRoot.hi == FromBigEndian(root[..8]) && ref.metaRoot.lo == FromBigEndian(root[8..])
  {
    hide Pow2, CanonicalBytes;
  }

  /** A chunk is accepted exactly when its index has an entry, its length is its span's, and the entry is the digest of
      the tag byte and the grain digests, an empty chunk counting as one empty grain. */
  lemma ChunkAcceptedIff(meta: BlobMeta, i: nat, chunk: seq<byte>, kit: BlobKit)
    ensures CheckChunk(meta, i, chunk, kit).Ok? <==>
      && 32 * i + 32 <= |meta.chunkHashes| && |chunk| == ChunkSpan(meta, i).1
      && meta.chunkHashes[32 * i..32 * i + 32] == kit.sum([1] + (if chunk == [] then kit.sum([])[..32] else GrainRun(kit, chunk)))[..32]
  {
    hide ChunkSpan, GrainRun;
  }

  /** And a digest run exactly when it is whole digests, at least one, whose tagged digest is the entry. */
  lemma RunAcceptedIff(kit: BlobKit, entry: seq<byte>, run: seq<byte>)
    ensures VerifyGrainRun(kit, entry, run).Ok? <==> run != [] && |run| % 32 == 0 && kit.sum([1] + run)[..32] == entry
  {
  }
}
