/** BlobMetaBuilder: the single-pass manifest mint.  It buffers grain digests, and past SPILL_LEN
    stored bytes replays them into one lane per candidate exponent, pruning those that cannot win. */
module BlobBuilder {
  import opened Bytes
  import opened BlobHash

  const LANE_COUNT := CHUNK_LOG2_MAX - CHUNK_LOG2_MIN + 1
  const BUFFER_MAX := 0x8_0000 // 2^19 digests

  /** `compose` holds what the lane's level-1 hasher has been fed since its last reset. */
  datatype BlobMetaLane = BlobMetaLane(compose: seq<byte>, entries: seq<byte>, grains: nat, tagged: bool, dead: bool)

  datatype BuildError = LengthExceeded | ChosenLanePruned

  predicate LaneDead(storedLen: nat, chunkSizeLog2: nat) {
    storedLen > TARGET_CHUNKS * Pow2(chunkSizeLog2)
  }

  lemma CeilingAbove(n: nat, d: nat, t: nat)
    requires d > 0
    ensures (n + d - 1) / d > t <==> n > t * d
  {
    var q := (n + d - 1) / d;
    assert q * d <= n + d - 1 < q * d + d;
    if q > t {
      MulMonotone(t + 1, q, d);
      assert (t + 1) * d == t * d + d;
    } else {
      MulMonotone(q, t, d);
    }
  }

  /** A lane is dead exactly when the chooser's test rejects its exponent. */
  lemma DeadIffRejected(storedLen: nat, exp: nat)
    ensures LaneDead(storedLen, exp) <==> !Fits(storedLen, exp)
  {
    if storedLen > 0 {
      CeilingAbove(storedLen, Pow2(exp), TARGET_CHUNKS);
    }
  }

  /** However the stream grew, the exponent Finish picks was never pruned. */
  lemma ChosenNeverPruned(earlier: nat, storedLen: nat)
    requires earlier <= storedLen
    ensures Chosen(storedLen) < CHUNK_LOG2_MAX ==> !LaneDead(earlier, Chosen(storedLen))
  {
    DeadIffRejected(storedLen, Chosen(storedLen));
  }

  /** Lane `exp`, unless dead, has composed exactly `run`. */
  ghost predicate LaneHolds(kit: BlobKit, lane: BlobMetaLane, run: seq<byte>, exp: nat)
    requires exp >= CHUNK_LOG2_MIN
  {
    !lane.dead ==>
      var rest := Leftover(run, RunLen(exp));
      && lane.entries == FullEntries(kit, run, RunLen(exp))
      && HASH_SIZE * lane.grains == |rest|
      && lane.tagged == (lane.grains > 0)
      && (lane.tagged ==> lane.compose == [COMPOSE_TAG] + rest)
  }

  ghost predicate LanesHold(kit: BlobKit, lanes: seq<BlobMetaLane>, run: seq<byte>) {
    && |lanes| == LANE_COUNT
    && forall ii | 0 <= ii < LANE_COUNT :: LaneHolds(kit, lanes[ii], run, CHUNK_LOG2_MIN + ii)
  }

  /** The dead lanes are exactly those the length has ruled out. */
  ghost predicate Pruned(lanes: seq<BlobMetaLane>, storedLen: nat) {
    forall ii | 0 <= ii < |lanes| :: lanes[ii].dead == (ii < LANE_COUNT - 1 && LaneDead(storedLen, CHUNK_LOG2_MIN + ii))
  }

  // ---- one lane's step ----

  function Fed(kit: BlobKit, lane: BlobMetaLane, digest: seq<byte>, exp: nat): (after: BlobMetaLane)
    requires exp >= CHUNK_LOG2_MIN
    ensures after.dead == lane.dead
  {
    if lane.dead then lane else
    var compose := (if lane.tagged then lane.compose else [COMPOSE_TAG]) + digest;
    if lane.grains + 1 == GrainsPerChunk(exp) then
      BlobMetaLane(compose, lane.entries + Digest(kit, compose), 0, false, false)
    else
      BlobMetaLane(compose, lane.entries, lane.grains + 1, true, false)
  }

  /** Feeding a lane one digest composes the run one digest longer. */
  lemma FedHolds(kit: BlobKit, lane: BlobMetaLane, run: seq<byte>, digest: seq<byte>, exp: nat)
    requires exp >= CHUNK_LOG2_MIN && |digest| == HASH_SIZE
    requires LaneHolds(kit, lane, run, exp)
    ensures LaneHolds(kit, Fed(kit, lane, digest, exp), run + digest, exp)
  {
    hide Leftover, FullEntries;
    if !lane.dead {
      var rest := Leftover(run, RunLen(exp));
      assert |rest| + HASH_SIZE <= RunLen(exp);
      FeedRun(kit, run, digest, RunLen(exp));
      assert (if lane.tagged then lane.compose else [COMPOSE_TAG]) == [COMPOSE_TAG] + rest;
      assert ([COMPOSE_TAG] + rest) + digest == [COMPOSE_TAG] + (rest + digest);
    }
  }

  ghost predicate AllFed(kit: BlobKit, before: seq<BlobMetaLane>, after: seq<BlobMetaLane>, digest: seq<byte>) {
    && |after| == |before| == LANE_COUNT
    && forall ii | 0 <= ii < LANE_COUNT :: after[ii] == Fed(kit, before[ii], digest, CHUNK_LOG2_MIN + ii)
  }

  lemma AllFedHold(kit: BlobKit, before: seq<BlobMetaLane>, after: seq<BlobMetaLane>, run: seq<byte>, digest: seq<byte>)
    requires LanesHold(kit, before, run) && |digest| == HASH_SIZE
    requires AllFed(kit, before, after, digest)
    ensures LanesHold(kit, after, run + digest)
    ensures forall ii | 0 <= ii < LANE_COUNT :: after[ii].dead == before[ii].dead
  {
    forall ii | 0 <= ii < LANE_COUNT
      ensures LaneHolds(kit, after[ii], run + digest, CHUNK_LOG2_MIN + ii)
    {
      FedHolds(kit, before[ii], run, digest, CHUNK_LOG2_MIN + ii);
    }
  }

  function AfterPrune(lane: BlobMetaLane, exp: nat, storedLen: nat): (after: BlobMetaLane) {
    if !lane.dead && exp < CHUNK_LOG2_MAX && LaneDead(storedLen, exp) then lane.(dead := true, entries := []) else lane
  }

  ghost predicate AllPruned(before: seq<BlobMetaLane>, after: seq<BlobMetaLane>, storedLen: nat) {
    && |after| == |before| == LANE_COUNT
    && forall ii | 0 <= ii < LANE_COUNT :: after[ii] == AfterPrune(before[ii], CHUNK_LOG2_MIN + ii, storedLen)
  }

  /** Lanes pruned at an earlier length are among those to prune now, so after pruning the dead
      lanes are exactly those the length rules out, and the live ones are untouched. */
  lemma AllPrunedHold(kit: BlobKit, before: seq<BlobMetaLane>, after: seq<BlobMetaLane>, run: seq<byte>,
                      earlier: nat, storedLen: nat)
    requires LanesHold(kit, before, run) && Pruned(before, earlier) && earlier <= storedLen
    requires AllPruned(before, after, storedLen)
    ensures LanesHold(kit, after, run) && Pruned(after, storedLen)
  {
  }

  lemma FreshLanesHold(kit: BlobKit, lanes: seq<BlobMetaLane>)
    requires |lanes| == LANE_COUNT
    requires forall ii | 0 <= ii < LANE_COUNT :: lanes[ii] == BlobMetaLane([], [], 0, false, false)
    ensures LanesHold(kit, lanes, []) && Pruned(lanes, 0)
  {
  }

  /** The digests `run` of the first `upTo` stored bytes are held, buffered or in lanes. */
  ghost predicate Absorbed(kit: BlobKit, runBuf: seq<byte>, lanes: seq<BlobMetaLane>, run: seq<byte>, upTo: nat) {
    if lanes == [] then
      runBuf == run && upTo <= SPILL_LEN
    else
      runBuf == [] && LanesHold(kit, lanes, run) && Pruned(lanes, upTo)
  }

  /** The naive manifest, in terms of the digest run of the whole blob. */
  lemma MetaByRuns(kit: BlobKit, stored: seq<byte>)
    requires |stored| <= LEN_MAX
    ensures var exp := Chosen(|stored|);
      && CHUNK_LOG2_MIN <= exp <= CHUNK_LOG2_MAX
      && NaiveMeta(kit, stored) == if |stored| <= GRAIN_SIZE then None else
           Some(BlobMeta(exp, |stored|, Compose(kit, GrainRun(kit, stored), RunLen(exp))))
  {
    var exp := Chosen(|stored|);
    ChunkIsGrains(exp);
    ComposeIsNaive(kit, stored, GrainsPerChunk(exp));
  }

  /** The chosen lane is alive, and one flush away from the entries of the whole run. */
  lemma LaneFinishes(kit: BlobKit, lanes: seq<BlobMetaLane>, run: seq<byte>, storedLen: nat)
    requires LanesHold(kit, lanes, run) && Pruned(lanes, storedLen)
    ensures |lanes| == LANE_COUNT && CHUNK_LOG2_MIN <= Chosen(storedLen) <= CHUNK_LOG2_MAX
    ensures var lane := lanes[Chosen(storedLen) - CHUNK_LOG2_MIN];
      && !lane.dead
      && Compose(kit, run, RunLen(Chosen(storedLen)))
           == if lane.grains > 0 then lane.entries + Digest(kit, lane.compose) else lane.entries
  {
    var exp := Chosen(storedLen);
    ChosenNeverPruned(storedLen, storedLen);
    assert LaneHolds(kit, lanes[exp - CHUNK_LOG2_MIN], run, exp);
    ComposeSplit(kit, run, RunLen(exp));
  }

  lemma ComposeAt(kit: BlobKit, run: seq<byte>, begin: nat, end: nat, runLen: nat)
    requires begin < |run| && end == Min(begin + runLen, |run|) && runLen > 0
    ensures Compose(kit, run[begin..], runLen) == RunEntry(kit, run[begin..end]) + Compose(kit, run[end..], runLen)
  {
    var rest := run[begin..];
    var span := end - begin;
    assert rest[..span] == run[begin..end];
    assert rest[span..] == run[end..];
  }

  lemma LiveLaneBound(kit: BlobKit, lane: BlobMetaLane, closed: seq<byte>, exp: nat)
    requires exp >= CHUNK_LOG2_MIN && LaneHolds(kit, lane, GrainRun(kit, closed), exp)
    requires |closed| % GRAIN_SIZE == 0
    requires !lane.dead && !LaneDead(|closed|, exp)
    ensures |lane.entries| <= HASH_SIZE * TARGET_CHUNKS
  {
    ChunkIsGrains(exp);
    GrainRunLength(kit, closed);
    FullEntriesBound(kit, GrainRun(kit, closed), RunLen(exp), TARGET_CHUNKS);
  }

  class BlobMetaBuilder {
    const kit: BlobKit
    var fine: seq<byte>          // what the level-0 hasher has been fed since its last reset
    var inGrain: nat             // bytes fed into the current (partial) grain
    var total: nat               // stored bytes seen
    var runBuf: seq<byte>        // buffered grain digests (until spill)
    var lanes: seq<BlobMetaLane> // per-exponent lanes (empty until spill)
    ghost var closed: seq<byte>  // the bytes of every closed grain

    constructor (kit: BlobKit)
      ensures Valid() && Stored() == [] && this.kit == kit
    {
      this.kit := kit;
      fine, inGrain, total, runBuf, lanes, closed := [], 0, 0, [], [], [];
    }

    ghost predicate Valid()
      reads this
    {
      && inGrain == |fine| < GRAIN_SIZE
      && |closed| % GRAIN_SIZE == 0
      && total == |closed| + inGrain <= LEN_MAX
      && Absorbed(kit, runBuf, lanes, GrainRun(kit, closed), |closed|)
    }

    /** Every byte written so far. */
    ghost function Stored(): (stored: seq<byte>)
      reads this
    {
      closed + fine
    }

    method Write(chunk: seq<byte>) returns (r: Result<nat, BuildError>)
      requires Valid()
      modifies this
      ensures Valid()
      ensures r == if |old(Stored())| + |chunk| > 0x4_0000_0000_0000 then Err(LengthExceeded) else Ok(|chunk|)
      ensures r.Ok? ==> Stored() == old(Stored()) + chunk
      ensures r.Err? ==> unchanged(this)
    {
      hide Absorbed, GrainRun, Digest;
      if total + |chunk| > LEN_MAX {
        return Err(LengthExceeded);
      }
      var rest := chunk;
      while rest != []
        invariant Valid() && total + |rest| == old(total) + |chunk|
        invariant Stored() + rest == old(Stored()) + chunk
        decreases |rest|
      {
        var span := Min(GRAIN_SIZE - inGrain, |rest|);
        TakeSpan(closed, fine, rest, span);
        fine := fine + rest[..span];
        inGrain := inGrain + span;
        total := total + span;
        rest := rest[span..];
        if inGrain == GRAIN_SIZE {
          AbsorbGrain();
        }
      }
      return Ok(|chunk|);
    }

    method AbsorbGrain()
      requires 0 < inGrain == |fine| <= GRAIN_SIZE && |closed| % GRAIN_SIZE == 0 && total == |closed| + |fine|
      requires Absorbed(kit, runBuf, lanes, GrainRun(kit, closed), |closed|)
      modifies `fine, `inGrain, `runBuf, `lanes, `closed
      ensures fine == [] && inGrain == 0 && closed == old(closed + fine)
      ensures Absorbed(kit, runBuf, lanes, GrainRun(kit, closed), total)
    {
      hide LaneHolds, LaneDead, GrainRun, Fed, AfterPrune, Digest;
      ghost var run, upTo := GrainRun(kit, closed), |closed|;
      GrainClosed(kit, closed, fine);
      GrainRunLength(kit, closed);
      GrainRunLength(kit, closed + fine);
      closed := closed + fine;
      var digest := Digest(kit, fine);
      fine := [];
      inGrain := 0;
      if lanes == [] {
        runBuf := runBuf + digest;
        if total > SPILL_LEN {
          Spill();
        }
        return;
      }
      ghost var before := lanes;
      FeedLanes(digest);
      AllFedHold(kit, before, lanes, run, digest);
      ghost var fed := lanes;
      PruneLanes();
      AllPrunedHold(kit, fed, lanes, run + digest, upTo, total);
    }

    method Spill()
      requires lanes == [] && |runBuf| % HASH_SIZE == 0
      modifies `runBuf, `lanes
      ensures lanes != [] && runBuf == []
      ensures LanesHold(kit, lanes, old(runBuf)) && Pruned(lanes, total)
    {
      hide LaneHolds, LaneDead, Fed, AfterPrune;
      lanes := seq(LANE_COUNT, ii => BlobMetaLane([], [], 0, false, false));
      var buffered := runBuf;
      runBuf := [];
      FreshLanesHold(kit, lanes);
      var begin := 0;
      assert buffered[..0] == [];
      while begin < |buffered|
        invariant begin <= |buffered| && begin % HASH_SIZE == 0
        invariant LanesHold(kit, lanes, buffered[..begin]) && runBuf == []
        invariant Pruned(lanes, 0)
      {
        ghost var before := lanes;
        FeedLanes(buffered[begin..begin + HASH_SIZE]);
        AllFedHold(kit, before, lanes, buffered[..begin], buffered[begin..begin + HASH_SIZE]);
        assert buffered[..begin] + buffered[begin..begin + HASH_SIZE] == buffered[..begin + HASH_SIZE];
        begin := begin + HASH_SIZE;
      }
      assert buffered[..begin] == buffered;
      ghost var fed := lanes;
      PruneLanes();
      AllPrunedHold(kit, fed, lanes, buffered, 0, total);
    }

    method FeedLanes(digest: seq<byte>)
      requires |lanes| == LANE_COUNT
      modifies `lanes
      ensures AllFed(kit, old(lanes), lanes, digest)
    {
      var ii := 0;
      while ii < |lanes|
        invariant ii <= |lanes| == LANE_COUNT
        invariant forall jj | 0 <= jj < ii :: lanes[jj] == Fed(kit, old(lanes)[jj], digest, CHUNK_LOG2_MIN + jj)
        invariant forall jj | ii <= jj < LANE_COUNT :: lanes[jj] == old(lanes)[jj]
      {
        var lane := lanes[ii];
        if !lane.dead {
          if !lane.tagged {
            lane := lane.(compose := [COMPOSE_TAG], tagged := true);
          }
          lane := lane.(compose := lane.compose + digest, grains := lane.grains + 1);
          if lane.grains == GrainsPerChunk(CHUNK_LOG2_MIN + ii) {
            lane := lane.(entries := lane.entries + Digest(kit, lane.compose), tagged := false, grains := 0);
          }
        }
        lanes := lanes[ii := lane];
        ii := ii + 1;
      }
    }

    method PruneLanes()
      requires |lanes| == LANE_COUNT
      modifies `lanes
      ensures AllPruned(old(lanes), lanes, total)
    {
      var ii := 0;
      while ii < |lanes| - 1
        invariant ii <= LANE_COUNT - 1 && |lanes| == LANE_COUNT
        invariant forall jj | 0 <= jj < ii :: lanes[jj] == AfterPrune(old(lanes)[jj], CHUNK_LOG2_MIN + jj, total)
        invariant forall jj | ii <= jj < LANE_COUNT :: lanes[jj] == old(lanes)[jj]
      {
        if !lanes[ii].dead && LaneDead(total, CHUNK_LOG2_MIN + ii) {
          lanes := lanes[ii := lanes[ii].(dead := true, entries := [])];
        }
        ii := ii + 1;
      }
    }

    /** Whatever the write segmentation and whichever internal mode ran, the naive manifest. */
    method Finish() returns (r: Result<Option<BlobMeta>, BuildError>)
      requires Valid()
      modifies this
      ensures r == Ok(NaiveMeta(kit, old(Stored())))
    {
      hide LanesHold, Pruned, IsChosen, ChosenFrom, GrainRun, Compose, NaiveMeta, Digest;
      ghost var stored := Stored();
      if inGrain > 0 {
        AbsorbGrain();
      }
      assert closed == stored;
      MetaByRuns(kit, stored);
      if total <= GRAIN_SIZE {
        return Ok(None);
      }
      var exp := ChooseBlobChunkSizeLog2(total);
      if lanes == [] {
        var hashes := ComposeBuffered(exp);
        return Ok(Some(BlobMeta(exp, total, hashes)));
      }
      LaneFinishes(kit, lanes, GrainRun(kit, stored), total);
      var lane := lanes[exp - CHUNK_LOG2_MIN];
      r := Err(ChosenLanePruned);
      if lane.dead {
        assert false;
      } else {
        if lane.grains > 0 {
          lane := lane.(entries := lane.entries + Digest(kit, lane.compose), tagged := false, grains := 0);
        }
        lanes := lanes[exp - CHUNK_LOG2_MIN := lane];
        r := Ok(Some(BlobMeta(exp, total, lane.entries)));
      }
    }

    method ComposeBuffered(exp: nat) returns (hashes: seq<byte>)
      requires exp >= CHUNK_LOG2_MIN
      ensures hashes == Compose(kit, runBuf, RunLen(exp))
    {
      hide Pow2, Digest;
      var runLen := GrainsPerChunk(exp) * HASH_SIZE;
      hashes := [];
      var begin := 0;
      assert runBuf[0..] == runBuf;
      while begin < |runBuf|
        invariant hashes + Compose(kit, runBuf[Min(begin, |runBuf|)..], runLen) == Compose(kit, runBuf, runLen)
      {
        var end := Min(begin + runLen, |runBuf|);
        ComposeAt(kit, runBuf, begin, end, runLen);
        hashes := hashes + Digest(kit, [COMPOSE_TAG] + runBuf[begin..end]);
        begin := begin + runLen;
      }
    }

    /** Memory stays bounded: at most 2^19 buffered digests, and at most 32768 entries in every
        live lane below the largest exponent. */
    lemma MemoryBound()
      requires Valid()
      ensures |runBuf| <= 32 * 0x8_0000
      ensures |lanes| <= 11 && forall ii | 0 <= ii < |lanes| && ii < 10 && !lanes[ii].dead :: |lanes[ii].entries| <= 32 * 32768
    {
      GrainRunLength(kit, closed);
      if lanes != [] {
        forall ii | 0 <= ii < |lanes| && ii < LANE_COUNT - 1 && !lanes[ii].dead
          ensures |lanes[ii].entries| <= HASH_SIZE * TARGET_CHUNKS
        {
          LiveLaneBound(kit, lanes[ii], closed, CHUNK_LOG2_MIN + ii);
        }
      }
    }
  }

  /** A whole mint: every way of cutting a blob into writes gives the naive manifest of the blob. */
  method Mint(kit: BlobKit, parts: seq<seq<byte>>) returns (meta: Option<BlobMeta>)
    requires |Flatten(parts)| <= LEN_MAX
    ensures meta == NaiveMeta(kit, Flatten(parts))
  {
    var builder := new BlobMetaBuilder(kit);
    var i := 0;
    assert parts[0..] == parts;
    while i < |parts|
      invariant i <= |parts| && builder.Valid() && fresh(builder) && builder.kit == kit
      invariant builder.Stored() + Flatten(parts[i..]) == Flatten(parts)
    {
      assert parts[i..][1..] == parts[i + 1..];
      var written := builder.Write(parts[i]);
      i := i + 1;
    }
    assert builder.Stored() == Flatten(parts);
    var finished := builder.Finish();
    meta := finished.value;
  }
}
