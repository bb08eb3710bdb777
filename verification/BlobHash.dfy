/** The two-level blob hash and the manifest a naive split-and-hash of the whole blob would give. */
module BlobHash {
  import opened Bytes

  const HASH_SIZE := 32
  const GRAIN_SIZE := 4096 // 1 << 12
  const CHUNK_LOG2_MIN := 20
  const CHUNK_LOG2_MAX := 30
  const TARGET_CHUNKS := 32768
  const LEN_MAX := 0x4_0000_0000_0000 // 1 PiB
  const COMPOSE_TAG: byte := 1
  const SPILL_LEN := 0x8000_0000 // 2 GiB

  /** A digest wide enough for a meta entry: newBlobHashKit admits no narrower kit. */
  type WideDigest = d: seq<byte> | HASH_SIZE <= |d| witness seq(HASH_SIZE, i => 0)

  /** A hash algorithm, as the digest of everything written since the last reset. */
  datatype BlobKit = BlobKit(sum: seq<byte> -> WideDigest)

  function Digest(kit: BlobKit, input: seq<byte>): (d: seq<byte>)
    ensures |d| == HASH_SIZE
  {
    kit.sum(input)[..HASH_SIZE]
  }

  datatype BlobMeta = BlobMeta(chunkSizeLog2: u32, totalLen: u64, chunkHashes: seq<byte>)

  /** One digest per grain of `stored`, the last grain possibly short. */
  function GrainRun(kit: BlobKit, stored: seq<byte>): (run: seq<byte>) {
    if stored == [] then [] else
    var span := Min(GRAIN_SIZE, |stored|);
    Digest(kit, stored[..span]) + GrainRun(kit, stored[span..])
  }

  /** A meta entry: the tagged hash of the chunk's digest run. */
  function RunEntry(kit: BlobKit, run: seq<byte>): (d: seq<byte>)
    ensures |d| == HASH_SIZE
  {
    Digest(kit, [COMPOSE_TAG] + run)
  }

  /** Split the whole blob into chunks, hash each chunk. */
  function NaiveEntries(kit: BlobKit, stored: seq<byte>, chunkSize: nat): (entries: seq<byte>)
    requires chunkSize > 0
  {
    if stored == [] then [] else
    var span := Min(chunkSize, |stored|);
    RunEntry(kit, GrainRun(kit, stored[..span])) + NaiveEntries(kit, stored[span..], chunkSize)
  }

  /** How many chunks of 2^chunkSizeLog2 bytes cover storedLen bytes. */
  function ChunkCount(storedLen: int, chunkSizeLog2: nat): (n: nat) {
    if storedLen <= 0 then 0
    else (storedLen + Pow2(chunkSizeLog2) - 1) / Pow2(chunkSizeLog2)
  }

  predicate Fits(storedLen: nat, exp: nat) {
    ChunkCount(storedLen, exp) <= TARGET_CHUNKS
  }

  /** The smallest exponent within bounds that keeps the meta within its target, or the largest. */
  ghost predicate IsChosen(storedLen: nat, exp: nat) {
    && CHUNK_LOG2_MIN <= exp <= CHUNK_LOG2_MAX
    && (exp == CHUNK_LOG2_MAX || Fits(storedLen, exp))
    && forall e | CHUNK_LOG2_MIN <= e < exp :: !Fits(storedLen, e)
  }

  function ChosenFrom(storedLen: nat, exp: nat): (r: nat)
    requires CHUNK_LOG2_MIN <= exp <= CHUNK_LOG2_MAX
    requires forall e | CHUNK_LOG2_MIN <= e < exp :: !Fits(storedLen, e)
    ensures IsChosen(storedLen, r)
    decreases CHUNK_LOG2_MAX - exp
  {
    if exp == CHUNK_LOG2_MAX || Fits(storedLen, exp) then exp else ChosenFrom(storedLen, exp + 1)
  }

  function Chosen(storedLen: nat): (exp: nat)
    ensures IsChosen(storedLen, exp)
  {
    ChosenFrom(storedLen, CHUNK_LOG2_MIN)
  }

  method ChooseBlobChunkSizeLog2(storedLen: nat) returns (exp: nat)
    ensures IsChosen(storedLen, exp)
    ensures exp == Chosen(storedLen)
  {
    exp := CHUNK_LOG2_MIN;
    while exp < CHUNK_LOG2_MAX && (storedLen + Pow2(exp) - 1) / Pow2(exp) > TARGET_CHUNKS
      invariant CHUNK_LOG2_MIN <= exp <= CHUNK_LOG2_MAX
      invariant forall e | CHUNK_LOG2_MIN <= e < exp :: !Fits(storedLen, e)
    {
      ZeroCount(storedLen, exp);
      exp := exp + 1;
    }
    ZeroCount(storedLen, exp);
    ChosenUnique(storedLen, exp, Chosen(storedLen));
  }

  /** The exponent is 20 to 30, keeps the manifest within 32768 entries unless it is 30, and one less would not. */
  lemma ChosenInFull(storedLen: nat)
    ensures var exp := Chosen(storedLen);
      && 20 <= exp <= 30
      && (exp < 30 ==> (storedLen + Pow2(exp) - 1) / Pow2(exp) <= 32768)
      && (exp > 20 ==> (storedLen + Pow2(exp - 1) - 1) / Pow2(exp - 1) > 32768)
  {
    hide Pow2;
    var exp := Chosen(storedLen);
    ZeroCount(storedLen, exp);
    if exp > 20 {
      assert !Fits(storedLen, exp - 1);
      ZeroCount(storedLen, exp - 1);
    }
  }

  lemma ChosenUnique(storedLen: nat, a: nat, b: nat)
    requires IsChosen(storedLen, a) && IsChosen(storedLen, b)
    ensures a == b
  {
  }

  /** The shift form of the count agrees with ChunkCount on an empty blob too. */
  lemma ZeroCount(storedLen: nat, exp: nat)
    ensures ChunkCount(storedLen, exp) == (storedLen + Pow2(exp) - 1) / Pow2(exp)
  {
    if storedLen == 0 {
      DivLess(Pow2(exp) - 1, Pow2(exp));
    }
  }

  lemma DivLess(n: nat, d: nat)
    requires n < d
    ensures n / d == 0
  {
  }

  /** The manifest of the whole blob; a blob at or under one grain has none. */
  function NaiveMeta(kit: BlobKit, stored: seq<byte>): Option<BlobMeta>
    requires |stored| <= LEN_MAX
  {
    if |stored| <= GRAIN_SIZE then None else
    var exp := Chosen(|stored|);
    Some(BlobMeta(exp, |stored|, NaiveEntries(kit, stored, Pow2(exp))))
  }

  /** A blob of one grain or less has no manifest; any larger one has, of its own length and chosen exponent. */
  lemma MetaOverOneGrain(kit: BlobKit, stored: seq<byte>)
    requires |stored| <= LEN_MAX
    ensures |stored| <= 4096 <==> NaiveMeta(kit, stored) == None
    ensures |stored| > 4096 ==> NaiveMeta(kit, stored).value.totalLen == |stored| && NaiveMeta(kit, stored).value.chunkSizeLog2 == Chosen(|stored|)
  {
  }

  // ---- runs and their composition ----

  function GrainsPerChunk(chunkSizeLog2: nat): nat
    requires chunkSizeLog2 >= 12
  {
    Pow2(chunkSizeLog2 - 12)
  }

  function RunLen(exp: nat): (n: nat)
    requires exp >= 12
    ensures n >= HASH_SIZE
  {
    HASH_SIZE * GrainsPerChunk(exp)
  }

  lemma ChunkIsGrains(exp: nat)
    requires exp >= 12
    ensures Pow2(exp) == GRAIN_SIZE * GrainsPerChunk(exp)
  {
    Pow2Sum(12, exp - 12);
    Pow2Values();
  }

  lemma {:induction false} GrainRunLength(kit: BlobKit, stored: seq<byte>)
    ensures |GrainRun(kit, stored)| == HASH_SIZE * ((|stored| + GRAIN_SIZE - 1) / GRAIN_SIZE)
  {
    if stored != [] {
      GrainRunLength(kit, stored[Min(GRAIN_SIZE, |stored|)..]);
    }
  }

  lemma {:induction false} GrainRunConcat(kit: BlobKit, a: seq<byte>, b: seq<byte>)
    requires |a| % GRAIN_SIZE == 0
    ensures GrainRun(kit, a + b) == GrainRun(kit, a) + GrainRun(kit, b)
  {
    if a == [] {
      assert a + b == b;
    } else {
      assert (a + b)[..GRAIN_SIZE] == a[..GRAIN_SIZE];
      assert (a + b)[GRAIN_SIZE..] == a[GRAIN_SIZE..] + b;
      GrainRunConcat(kit, a[GRAIN_SIZE..], b);
    }
  }

  /** Entries of a digest run cut every runLen bytes. */
  function Compose(kit: BlobKit, run: seq<byte>, runLen: nat): (entries: seq<byte>)
    requires runLen > 0
  {
    if run == [] then [] else
    var span := Min(runLen, |run|);
    RunEntry(kit, run[..span]) + Compose(kit, run[span..], runLen)
  }

  lemma WholeGrains(grains: nat)
    ensures (GRAIN_SIZE * grains) % GRAIN_SIZE == 0
    ensures (GRAIN_SIZE * grains + GRAIN_SIZE - 1) / GRAIN_SIZE == grains
  {
  }

  /** A chunk boundary cuts the digest run exactly `grains` digests in. */
  lemma GrainRunSplit(kit: BlobKit, stored: seq<byte>, grains: nat)
    requires GRAIN_SIZE * grains <= |stored|
    ensures HASH_SIZE * grains <= |GrainRun(kit, stored)|
    ensures GrainRun(kit, stored)[..HASH_SIZE * grains] == GrainRun(kit, stored[..GRAIN_SIZE * grains])
    ensures GrainRun(kit, stored)[HASH_SIZE * grains..] == GrainRun(kit, stored[GRAIN_SIZE * grains..])
  {
    var head, tail := stored[..GRAIN_SIZE * grains], stored[GRAIN_SIZE * grains..];
    WholeGrains(grains);
    GrainRunConcat(kit, head, tail);
    assert stored == head + tail;
    GrainRunLength(kit, head);
  }

  lemma OneChunk(kit: BlobKit, stored: seq<byte>, chunk: nat, runLen: nat)
    requires 0 < |stored| <= chunk && |GrainRun(kit, stored)| <= runLen
    ensures NaiveEntries(kit, stored, chunk) == RunEntry(kit, GrainRun(kit, stored))
    ensures Compose(kit, GrainRun(kit, stored), runLen) == RunEntry(kit, GrainRun(kit, stored))
  {
    var run := GrainRun(kit, stored);
    assert stored[..|stored|] == stored && run[..|run|] == run;
    assert NaiveEntries(kit, stored[|stored|..], chunk) == [];
    assert Compose(kit, run[|run|..], runLen) == [];
  }

  lemma NextChunk(kit: BlobKit, stored: seq<byte>, grains: nat)
    requires 0 < GRAIN_SIZE * grains <= |stored|
    ensures NaiveEntries(kit, stored, GRAIN_SIZE * grains)
      == RunEntry(kit, GrainRun(kit, stored[..GRAIN_SIZE * grains]))
         + NaiveEntries(kit, stored[GRAIN_SIZE * grains..], GRAIN_SIZE * grains)
  {
  }

  lemma NextRun(kit: BlobKit, run: seq<byte>, runLen: nat)
    requires 0 < runLen <= |run|
    ensures Compose(kit, run, runLen) == RunEntry(kit, run[..runLen]) + Compose(kit, run[runLen..], runLen)
  {
  }

  /** Composing the digest run chunk by chunk is hashing the blob chunk by chunk. */
  lemma {:induction false} ComposeIsNaive(kit: BlobKit, stored: seq<byte>, grains: nat)
    requires grains > 0
    ensures Compose(kit, GrainRun(kit, stored), HASH_SIZE * grains) == NaiveEntries(kit, stored, GRAIN_SIZE * grains)
    decreases |stored|
  {
    if |stored| >= GRAIN_SIZE * grains {
      GrainRunSplit(kit, stored, grains);
      NextChunk(kit, stored, grains);
      NextRun(kit, GrainRun(kit, stored), HASH_SIZE * grains);
      ComposeIsNaive(kit, stored[GRAIN_SIZE * grains..], grains);
    } else if stored != [] {
      GrainRunLength(kit, stored);
      OneChunk(kit, stored, GRAIN_SIZE * grains, HASH_SIZE * grains);
    }
  }

  /** The entries of the complete chunks of a run, and the digests left over. */
  function FullEntries(kit: BlobKit, run: seq<byte>, runLen: nat): (entries: seq<byte>)
    requires runLen > 0
  {
    if |run| < runLen then [] else RunEntry(kit, run[..runLen]) + FullEntries(kit, run[runLen..], runLen)
  }

  function Leftover(run: seq<byte>, runLen: nat): (rest: seq<byte>)
    requires runLen > 0
    ensures |rest| < runLen
  {
    if |run| < runLen then run else Leftover(run[runLen..], runLen)
  }

  lemma {:induction false} FeedRun(kit: BlobKit, run: seq<byte>, digest: seq<byte>, runLen: nat)
    requires |digest| == HASH_SIZE && runLen > 0
    requires |Leftover(run, runLen)| + HASH_SIZE <= runLen
    ensures var grown := Leftover(run, runLen) + digest;
      if |grown| == runLen then
        FullEntries(kit, run + digest, runLen) == FullEntries(kit, run, runLen) + RunEntry(kit, grown)
        && Leftover(run + digest, runLen) == []
      else
        FullEntries(kit, run + digest, runLen) == FullEntries(kit, run, runLen)
        && Leftover(run + digest, runLen) == grown
  {
    if |run| < runLen {
      if |run + digest| == runLen {
        assert (run + digest)[..runLen] == run + digest;
        assert (run + digest)[runLen..] == [];
      }
    } else {
      assert (run + digest)[..runLen] == run[..runLen];
      assert (run + digest)[runLen..] == run[runLen..] + digest;
      FeedRun(kit, run[runLen..], digest, runLen);
    }
  }

  lemma {:induction false} ComposeSplit(kit: BlobKit, run: seq<byte>, runLen: nat)
    requires runLen > 0
    ensures Compose(kit, run, runLen) == FullEntries(kit, run, runLen)
      + (if Leftover(run, runLen) == [] then [] else RunEntry(kit, Leftover(run, runLen)))
  {
    if |run| < runLen {
      if run != [] {
        assert run[..|run|] == run && run[|run|..] == [];
      }
    } else {
      ComposeSplit(kit, run[runLen..], runLen);
    }
  }

  lemma {:induction false} FullEntriesBound(kit: BlobKit, run: seq<byte>, runLen: nat, chunks: nat)
    requires runLen > 0 && |run| <= chunks * runLen
    ensures |FullEntries(kit, run, runLen)| <= HASH_SIZE * chunks
    decreases chunks
  {
    if |run| >= runLen {
      assert chunks >= 1;
      assert chunks * runLen == (chunks - 1) * runLen + runLen;
      FullEntriesBound(kit, run[runLen..], runLen, chunks - 1);
    }
  }

  // ---- streaming ----

  /** Closing a grain appends its digest to the run. */
  lemma GrainClosed(kit: BlobKit, closed: seq<byte>, grain: seq<byte>)
    requires 0 < |grain| <= GRAIN_SIZE && |closed| % GRAIN_SIZE == 0
    ensures GrainRun(kit, closed + grain) == GrainRun(kit, closed) + Digest(kit, grain)
  {
    GrainRunConcat(kit, closed, grain);
    assert grain[..|grain|] == grain && grain[|grain|..] == [];
    assert GrainRun(kit, grain[|grain|..]) == [];
  }

  lemma TakeSpan(closed: seq<byte>, fine: seq<byte>, rest: seq<byte>, span: nat)
    requires span <= |rest|
    ensures (closed + (fine + rest[..span])) + rest[span..] == (closed + fine) + rest
  {
  }
}
