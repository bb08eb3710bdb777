/** The epoch chain: the verbatim signing frame, and what holds along every chain of accepted epochs. */
module Epochs {
  import opened Bytes
  import opened Uids

  datatype SealState = Open | Paused | Sealed

  datatype PlanetEpoch = PlanetEpoch(charter: seq<byte>, terms: seq<byte>)

  /** A nil PreviousEpoch or EpochTag reads as the nil UID. */
  datatype EpochTerms = EpochTerms(hashKit: nat, charterHash: seq<byte>, previousEpoch: UID, epochTag: UID,
                                   epochHeight: u64, seal: SealState)

  datatype EpochError =
    | NoTerms | BadTerms | NoHash | CharterHashMismatch | PredecessorSealed | CharterSwap | WrongPredecessor
    | WrongHeight | HashKitChanged

  /** Protobuf and the hash kits; None where the code errors. */
  datatype World = World(marshalTerms: EpochTerms -> seq<byte>, unmarshalTerms: seq<byte> -> Option<EpochTerms>,
                         hash: (nat, seq<byte>) -> Option<seq<byte>>)

  // ---- the signing frame ----

  function EpochFrame(charter: seq<byte>, terms: seq<byte>): seq<byte> {
    BigEndian(|charter|, 8) + charter + BigEndian(|terms|, 8) + terms
  }

  /** No byte can move across the split between the layers: the frame determines both. */
  lemma FrameInjective(c: seq<byte>, t: seq<byte>, c': seq<byte>, t': seq<byte>)
    requires |c| < TWO_64 && |c'| < TWO_64 && |t| < TWO_64 && |t'| < TWO_64
    requires EpochFrame(c, t) == EpochFrame(c', t')
    ensures c == c' && t == t'
  {
    hide BigEndian, FromBigEndian;
    var frame := EpochFrame(c, t);
    assert frame[..8] == BigEndian(|c|, 8) && frame[..8] == BigEndian(|c'|, 8);
    BigEndianRoundTrip(|c|, 8);
    BigEndianRoundTrip(|c'|, 8);
    var n := |c|;
    assert frame[8..8 + n] == c && frame[8..8 + n] == c';
    assert frame[n + 16..] == t && frame[n + 16..] == t';
  }

  /** Each layer is found behind its eight-byte length, the charter first. */
  lemma FrameParses(c: seq<byte>, t: seq<byte>)
    requires |c| < TWO_64 && |t| < TWO_64
    ensures var frame, n := EpochFrame(c, t), 8 + |c|;
      && |frame| == n + 8 + |t| && FromBigEndian(frame[..8]) == |c| && frame[8..n] == c
      && FromBigEndian(frame[n..n + 8]) == |t| && frame[n + 8..] == t
  {
    hide BigEndian, FromBigEndian;
    var frame, n := EpochFrame(c, t), 8 + |c|;
    BigEndianRoundTrip(|c|, 8);
    BigEndianRoundTrip(|t|, 8);
    assert frame[..8] == BigEndian(|c|, 8) && frame[n..n + 8] == BigEndian(|t|, 8);
  }

  // ---- continuity ----

  function ParsedTerms(w: World, pe: PlanetEpoch): Result<EpochTerms, EpochError> {
    if pe.terms == [] then Err(NoTerms) else
    match w.unmarshalTerms(pe.terms)
    case None => Err(BadTerms)
    case Some(terms) => Ok(terms)
  }

  function VerifyCharterContinuity(w: World, pe: PlanetEpoch, prev: Option<PlanetEpoch>): Result<(), EpochError> {
    match ParsedTerms(w, pe)
    case Err(e) => Err(e)
    case Ok(terms) =>
      match w.hash(terms.hashKit, pe.charter)
      case None => Err(NoHash)
      case Some(digest) =>
        if digest != terms.charterHash then Err(CharterHashMismatch)
        else if prev.None? then Ok(())
        else
          match ParsedTerms(w, prev.value)
          case Err(e) => Err(e)
          case Ok(prevTerms) =>
            if prevTerms.seal == Sealed then Err(PredecessorSealed)
            else if pe.charter != prev.value.charter then Err(CharterSwap)
            else if terms.previousEpoch != prevTerms.epochTag then Err(WrongPredecessor)
            else if terms.epochHeight != (prevTerms.epochHeight + 1) % TWO_64 then Err(WrongHeight)
            else if terms.hashKit != prevTerms.hashKit then Err(HashKitChanged)
            else Ok(())
  }

  /** What makes an epoch acceptable, alone and after another. */
  lemma ContinuityIff(w: World, pe: PlanetEpoch, prev: PlanetEpoch)
    ensures var terms, before := w.unmarshalTerms(pe.terms), w.unmarshalTerms(prev.terms);
      && var genesis := pe.terms != [] && terms.Some? && w.hash(terms.value.hashKit, pe.charter) == Some(terms.value.charterHash);
      && (VerifyCharterContinuity(w, pe, None).Ok? <==> genesis)
      && (VerifyCharterContinuity(w, pe, Some(prev)).Ok? <==>
            genesis && prev.terms != [] && before.Some? && before.value.seal != Sealed && pe.charter == prev.charter
            && terms.value.previousEpoch == before.value.epochTag && terms.value.hashKit == before.value.hashKit
            && terms.value.epochHeight == (before.value.epochHeight + 1) % TWO_64)
  {
  }

  /** Each refusal is for its own reason, the earlier ones ruled out. */
  lemma RefusalsTell(w: World, pe: PlanetEpoch, prev: PlanetEpoch)
    requires pe.terms != [] && prev.terms != [] && w.unmarshalTerms(pe.terms).Some? && w.unmarshalTerms(prev.terms).Some?
    ensures var terms, before := w.unmarshalTerms(pe.terms).value, w.unmarshalTerms(prev.terms).value;
      && var digest, r := w.hash(terms.hashKit, pe.charter), VerifyCharterContinuity(w, pe, Some(prev));
      && (r == Err(NoHash) <==> digest.None?)
      && (r == Err(CharterHashMismatch) <==> digest.Some? && digest.value != terms.charterHash)
      && (digest == Some(terms.charterHash) ==>
            && (r == Err(PredecessorSealed) <==> before.seal == Sealed)
            && (r == Err(CharterSwap) <==> before.seal != Sealed && pe.charter != prev.charter)
            && (before.seal != Sealed && pe.charter == prev.charter ==>
                  && (r == Err(WrongPredecessor) <==> terms.previousEpoch != before.epochTag)
                  && (r == Err(WrongHeight) ==> terms.epochHeight != (before.epochHeight + 1) % TWO_64)
                  && (r == Err(HashKitChanged) ==> terms.hashKit != before.hashKit
                                                   && terms.epochHeight == (before.epochHeight + 1) % TWO_64)))
  {
  }

  /** Terms that are missing or unreadable are refused, the epoch's own before its predecessor's. */
  lemma UnreadableTermsAreRefused(w: World, pe: PlanetEpoch, prev: Option<PlanetEpoch>)
    ensures pe.terms == [] ==> VerifyCharterContinuity(w, pe, prev) == Err(NoTerms)
    ensures pe.terms != [] && w.unmarshalTerms(pe.terms).None? ==> VerifyCharterContinuity(w, pe, prev) == Err(BadTerms)
    ensures VerifyCharterContinuity(w, pe, None).Ok? && prev.Some? && prev.value.terms == [] ==>
      VerifyCharterContinuity(w, pe, prev) == Err(NoTerms)
    ensures VerifyCharterContinuity(w, pe, None).Ok? && prev.Some? && prev.value.terms != [] && w.unmarshalTerms(prev.value.terms).None? ==>
      VerifyCharterContinuity(w, pe, prev) == Err(BadTerms)
  {
  }

  function AssembleEpoch(w: World, charter: seq<byte>, terms: EpochTerms, hashKit: nat): Result<PlanetEpoch, EpochError> {
    match w.hash(hashKit, charter)
    case None => Err(NoHash)
    case Some(digest) =>
      Ok(PlanetEpoch(charter, w.marshalTerms(terms.(hashKit := hashKit, charterHash := digest))))
  }

  /** Unmarshal undoes marshal on these terms, which marshal to at least one byte. */
  ghost predicate TermsInverse(w: World, terms: EpochTerms) {
    w.marshalTerms(terms) != [] && w.unmarshalTerms(w.marshalTerms(terms)) == Some(terms)
  }

  /** An assembled epoch is accepted as a genesis, and as a successor exactly when it carries the
      predecessor's charter and hash kit, names its tag, is one higher, and the predecessor is not
      sealed. */
  lemma AssembledIsAccepted(w: World, charter: seq<byte>, terms: EpochTerms, hashKit: nat, prev: PlanetEpoch)
    requires AssembleEpoch(w, charter, terms, hashKit).Ok?
    requires TermsInverse(w, terms.(hashKit := hashKit, charterHash := w.hash(hashKit, charter).value))
    ensures var pe := AssembleEpoch(w, charter, terms, hashKit).value;
      && VerifyCharterContinuity(w, pe, None).Ok?
      && (VerifyCharterContinuity(w, pe, Some(prev)).Ok? <==>
            && ParsedTerms(w, prev).Ok?
            && var before := ParsedTerms(w, prev).value;
            && before.seal != Sealed && prev.charter == charter && before.hashKit == hashKit
            && terms.previousEpoch == before.epochTag && terms.epochHeight == (before.epochHeight + 1) % TWO_64)
  {
  }

  // ---- chains ----

  ghost predicate Chain(w: World, epochs: seq<PlanetEpoch>) {
    && (epochs != [] ==> VerifyCharterContinuity(w, epochs[0], None).Ok?)
    && forall i | 0 < i < |epochs| :: VerifyCharterContinuity(w, epochs[i], Some(epochs[i - 1])).Ok?
  }

  ghost function TermsOf(w: World, pe: PlanetEpoch): EpochTerms
    requires ParsedTerms(w, pe).Ok?
  {
    ParsedTerms(w, pe).value
  }

  lemma ChainParses(w: World, epochs: seq<PlanetEpoch>, i: nat)
    requires Chain(w, epochs) && i < |epochs|
    ensures ParsedTerms(w, epochs[i]).Ok?
    ensures w.hash(TermsOf(w, epochs[i]).hashKit, epochs[i].charter) == Some(TermsOf(w, epochs[i]).charterHash)
  {
    if i == 0 {
      assert VerifyCharterContinuity(w, epochs[0], None).Ok?;
    } else {
      assert VerifyCharterContinuity(w, epochs[i], Some(epochs[i - 1])).Ok?;
    }
  }

  /** Charter, charter hash and hash kit never change along a chain, each epoch names its
      predecessor's tag, none but the last is sealed, and heights count the steps. */
  lemma {:induction false} ChainKeeps(w: World, epochs: seq<PlanetEpoch>, i: nat, j: nat)
    requires Chain(w, epochs) && i <= j < |epochs|
    ensures ParsedTerms(w, epochs[i]).Ok? && ParsedTerms(w, epochs[j]).Ok?
    ensures epochs[i].charter == epochs[j].charter
    ensures TermsOf(w, epochs[i]).hashKit == TermsOf(w, epochs[j]).hashKit
    ensures TermsOf(w, epochs[i]).charterHash == TermsOf(w, epochs[j]).charterHash
    ensures TermsOf(w, epochs[j]).epochHeight == (TermsOf(w, epochs[i]).epochHeight + (j - i)) % TWO_64
    ensures i < j ==> TermsOf(w, epochs[i]).seal != Sealed
    ensures i + 1 == j ==> TermsOf(w, epochs[j]).previousEpoch == TermsOf(w, epochs[i]).epochTag
    decreases j
  {
    ChainParses(w, epochs, i);
    ChainParses(w, epochs, j);
    if i < j {
      ChainKeeps(w, epochs, i, j - 1);
      assert VerifyCharterContinuity(w, epochs[j], Some(epochs[j - 1])).Ok?;
    }
  }

  /** Within 2^64 steps no epoch of a chain repeats. */
  lemma ChainNeverRepeats(w: World, epochs: seq<PlanetEpoch>, i: nat, j: nat)
    requires Chain(w, epochs) && i < j < |epochs| && j - i < TWO_64
    ensures epochs[i] != epochs[j]
  {
    ChainKeeps(w, epochs, i, j);
  }

  /** Nothing can be chained onto a sealed epoch. */
  lemma SealEndsChain(w: World, epochs: seq<PlanetEpoch>, next: PlanetEpoch)
    requires Chain(w, epochs) && epochs != []
    requires ParsedTerms(w, epochs[|epochs| - 1]).Ok? && TermsOf(w, epochs[|epochs| - 1]).seal == Sealed
    ensures !Chain(w, epochs + [next])
  {
    var n := |epochs|;
    assert (epochs + [next])[n] == next && (epochs + [next])[n - 1] == epochs[n - 1];
    if Chain(w, epochs + [next]) {
      ChainKeeps(w, epochs + [next], n - 1, n);
    }
  }
}
