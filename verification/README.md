# Verified model of the amp SDK's blob, transaction, fold and governance logic

The project models, in Dafny, the parts of the SDK that carry state and arithmetic, and proves what they keep over
every input and every run.

| file | models |
|---|---|
| `Bytes.dfy`, `Uvarint.dfy` | bytes, fixed-width integers, big-endian and uvarint encodings, UIDs as two ordered 64-bit words |
| `BlobHash.dfy` | the two-level (grain, chunk) hash and the manifest a naive split-and-hash of the whole blob gives |
| `BlobBuilder.dfy` | `BlobMetaBuilder`: buffered digests, the spill into eleven lanes, pruning, and `Finish` |
| `BlobVerify.dfy`, `BlobAgreement.dfy` | chunk addresses, canonical manifest bytes, the ref commitment, chunk and digest-run checks, and what they accept |
| `TxOps.dfy` | the delta-compressed ops section: sixteen slots carried from op to op, change mask, reserved skip |
| `TxWire.dfy`, `TxMessage.dfy` | seal and open, plain framing, op identity, authoring, `Normalize`, `LoadValue` |
| `Sorting.dfy`, `TxOrder.dfy` | sorting by contract, the canonical op order, the element search |
| `Bindings.dfy` | `FoldBinding`: last writer wins, tombstones, the `OnAdmit` veto, the merger hook |
| `MemberEpochs.dfy`, `MemberConvergence.dfy` | `MemberEpochMerger`: per-field custody with a clock for each field, and what it converges to |
| `Media.dfy` | the lazy range reader over segments, with its LRU list of open readers |
| `Quorum.dfy`, `Epochs.dfy`, `SigningFrames.dfy`, `Founders.dfy` | co-signature quorum, the epoch chain, signing frames, the founder commitment |
| `AccessControl.dfy` | the bounded parent-chain access resolver |
| `Base58.dfy` | base58btc (draft-msporny-base58, sections 3 and 4) behind `did:key` |
| `BufMap.dfy`, `TokenBucket.dfy` | the linear-probing map and the token bucket |

`dafny verify dfyconfig.toml` checks the whole project.

## How the source is rendered

* Code that updates state is a class or a method with loops, proved against a specification function or a stated
  property; the theorems are lemmas about those functions.
* A hash is a function from what was written to a digest.  Collision-freedom is never assumed: it cannot hold of a
  function onto 32 bytes.  The authentication theorems instead say that either the bytes are the original ones or two
  of the very inputs hashed collide.
* A function that both a specification and its method call is pinned by a lemma in numbers, raw fields or the hash
  itself (the rows "exactly when", "in numbers", "in its own fields"), so that no theorem rests on a definition alone.
* The hypotheses of `RefAuthenticatesChunks` are met by the minted manifest itself (`StampedRefVerifies`,
  `MintedChunkVerifies`), those of `OpenUndoesSeal` by any transaction of moderate size (`SealableIsMet`).
* Signing, encryption, member proofs and protobuf are functions; the laws a theorem needs (verify accepts sign, decrypt
  inverts encrypt, unmarshal inverts marshal) are hypotheses about the messages at hand.
* Where a short read, a failed open or a wrong marshal is possible, the model picks it arbitrarily.
* Go's 64-bit wrap-around, int64 conversions and truncations are written out where the code performs them, save what
  "Left out" names.
* Clock readings and map iteration orders are parameters.
* `sort.Slice` is its contract: an ascending rearrangement, ties in any order.  `sort.Find` is the standard library's
  halving loop, because one caller breaks its precondition (see `LoadValue` below).

## Where the code and its own words part

* `LoadValue` hands `sort.Find` the comparison of an op against the wanted element, where `Find` expects the wanted
  element against the op.  On canonical ops it therefore finds an element exactly when the first and the middle op both
  carry it; any other element, though present, is reported missing.  Of two elements neither is found
  (`TwoElementsAreMissed`).  It also ignores the error `Normalize` returns.
* `BufMap.Remove` says it removes the entry with the key; it also hides every other entry whose probe passes the
  emptied slot.  `RemoveIsFaithfulIff` gives the exact condition, `RemoveCanLose` a table.
* `FoldBinding` converges exactly when no item's newest op is an undecodable upsert over a decodable older one.
* A member's custody fields depend on delivery order, each under an exact condition, where "contenders" are the records
  some delivery can leave the field at.  A key: the declaring custody-lane records not older than the newest
  self-authored one (all of them, where there is none) must declare the same key.  The status: the custody-lane records
  not older than any issuer's must give the same status, which must be 0 if no issuer has written and a base-lane record
  can come first.  The epoch tag that rides the status: the same contenders must carry the same tag; an issuer among
  them without a tag must find none on any custody-lane record; and none may carry one where the status can stay unset.
  The clock of a key or of the status, that is, the record it is held from, converges on fewer deliveries; this has its
  own condition.  What a binding serves has conditions of the same form, the newest record showing where custody holds
  nothing.
* `ResolveAccess` compares open int32 levels.  Giving the topmost channel a further parent raises the result exactly
  when the minimum over the chain is negative, below NotAllowed, and the new chain fails closed.
* `SealTx` without a provider declares the length of the data store but does not write it: what it writes opens only if
  there is no data.
* A reserved skip is added to the cursor as a signed 64-bit sum.  The cursor advances within the span exactly when the
  skip is no more than what is left; else it passes the end (an error), goes negative (the next slice panics) or moves
  back, by where the sum wraps.  A message length likewise is an error or a panic.
* `Clear` promises that later updates repopulate a binding.  With the member merger they do not: the merger keeps its
  custody, and a record brings its member back exactly when it still changes something (`ClearedComesBackIff`); the
  record that filled the cache does not (`ClearLosesMember`).
* A custody field stamped with a reserved sentinel EditID is held but not served: materialising asks whether the EditID
  is set, and sentinels are not.
* Preamble bytes 14 and 15 of a sealed transaction (12 to 15 of a plain one) are left as the caller's buffer had them;
  the round trips hold whatever they are, and for a sealed transaction they are under the signature.
* A parent chain of exactly 64 hops is accepted only if the last epoch has no parent at all; a parent with a nil UID
  there is refused.
* A ref stamped over a manifest whose root digest begins with sixteen zero bytes refuses that manifest: the zero root
  reads as no commitment.

## Model

| member | source | states |
|---|---|---|
| Uvarint.RoundTrip | amp/amp.support.tx.go:531-559 | a reader recovers exactly the 64-bit value and its width, at most ten bytes, whatever follows |
| Uvarint.SizeIsLength | amp/amp.support.blobmeta.go:545-558 | the computed size of a varint is the length written |
| Uvarint.GetBound | amp/amp.support.tx.go:531-559 | whatever a reader accepts is a 64-bit value of positive width within the input |
| Uvarint.PutAt | amp/amp.support.tx.go:452-470 | byte k holds bits 7k to 7k+6, and all but the last byte are marked |
| Uvarint.PutIsShortest | amp/amp.support.tx.go:452-470 | no byte more than the value needs |
| Uvarint.GetIff | amp/amp.support.tx.go:531-559 | exactly the varints of at most 64 bits are read, padded ones included, as the number their bytes spell |
| Bytes.BigEndianAt | amp/amp.support.tx.go:422-437 | the most significant byte is written first |
| Bytes.FromBigEndianFirst | amp/amp.support.tx.go:23-34 | the first byte read weighs the most |
| Uids.AsNumbers | stdlib/tag/tag.id.go:737-767 | identifiers order as 128-bit numbers; nil is zero and exactly the top fifteen are not set |
| BlobHash.ChooseBlobChunkSizeLog2 | amp/amp.support.blobmeta.go:103-109 | the loop returns the least exponent within bounds that keeps the manifest within 32768 entries, or the largest exponent |
| BlobHash.ChosenUnique | amp/amp.support.blobmeta.go:103-109 | only one exponent meets that description |
| BlobHash.ChosenInFull | amp/amp.support.blobmeta.go:103-109 | in numbers: the exponent lies in 20 to 30, gives at most 32768 chunks unless it is 30, and no smaller one does |
| BlobHash.GrainRunSplit | amp/amp.support.blobmeta.go:283-299 | a chunk boundary cuts the digest run a whole number of digests in, and both sides are digest runs |
| BlobHash.ComposeIsNaive | amp/amp.support.blobmeta.go:478-519 | composing the grain-digest run chunk by chunk equals splitting and hashing the stored bytes chunk by chunk |
| BlobHash.FeedRun | amp/amp.support.blobmeta.go:425-445 | one more digest extends a lane's finished entries and leftover exactly as composing the longer run does |
| BlobHash.ComposeSplit | amp/amp.support.blobmeta.go:478-519 | a lane's entries with its leftover flushed are the entries of the whole run |
| BlobHash.MetaOverOneGrain | amp/amp.support.blobmeta.go:478-487 | a manifest exists exactly above one grain |
| BlobBuilder.DeadIffRejected | amp/amp.support.blobmeta.go:466-468 | the shift-and-ceiling prune test is exactly the chooser rejecting the exponent |
| BlobBuilder.ChosenNeverPruned | amp/amp.support.blobmeta.go:449-468 | at no earlier length of the stream was the finally chosen exponent dead |
| BlobBuilder.FedHolds | amp/amp.support.blobmeta.go:425-445 | feeding a digest keeps a lane equal to the composition of all digests so far |
| BlobBuilder.AllPrunedHold | amp/amp.support.blobmeta.go:449-460 | pruning leaves exactly the lanes the length rules out dead, and every live lane's contents untouched |
| BlobBuilder.LaneFinishes | amp/amp.support.blobmeta.go:478-519 | the chosen lane is alive and one flush away from the naive entries |
| BlobBuilder.MetaByRuns | amp/amp.support.blobmeta.go:478-519 | the naive manifest expressed by digest runs alone |
| BlobBuilder.BlobMetaBuilder.constructor | amp/amp.support.blobmeta.go:353-363 | starts having stored nothing |
| BlobBuilder.BlobMetaBuilder.Write | amp/amp.support.blobmeta.go:366-383 | refuses past 1 PiB changing nothing, else the stored bytes grow by exactly the write, however it straddles grains |
| BlobBuilder.BlobMetaBuilder.AbsorbGrain | amp/amp.support.blobmeta.go:386-400 | the digests of all closed grains are held, in the buffer or in live lanes, after the grain, its spill and its prune |
| BlobBuilder.BlobMetaBuilder.Spill | amp/amp.support.blobmeta.go:404-422 | replaying the buffer leaves every lane as if fed from the start |
| BlobBuilder.BlobMetaBuilder.FeedLanes | amp/amp.support.blobmeta.go:425-445 | every live lane takes the digest, dead ones stay as they are |
| BlobBuilder.BlobMetaBuilder.PruneLanes | amp/amp.support.blobmeta.go:449-460 | the dead lanes are those the length rules out, their memory released |
| BlobBuilder.BlobMetaBuilder.Finish | amp/amp.support.blobmeta.go:478-519 | returns the naive manifest of the stored bytes whichever mode ran; the pruned-lane error never happens |
| BlobBuilder.BlobMetaBuilder.ComposeBuffered | amp/amp.support.blobmeta.go:491-506 | the buffered run hashed every chunk's worth of digests is the composition of the run |
| BlobBuilder.BlobMetaBuilder.MemoryBound | amp/amp.support.blobmeta.go:386-460 | at every point at most 2^19 buffered digests, and at most 32768 entries in each live lane below the largest exponent |
| BlobBuilder.Mint | amp/amp.support.blobmeta.go:366-519 | every way of cutting a blob into writes yields the naive manifest of the concatenation |
| BlobVerify.CanonicalInjective | amp/amp.support.blobmeta.go:524-539 | two manifests with the same canonical bytes are the same manifest |
| BlobVerify.WireSizeExact | amp/amp.support.blobmeta.go:545-558 | the size computed from length and exponent alone is the length of the canonical bytes |
| BlobVerify.UidOfInjective | amp/amp.support.blobmeta.go:562-571 | the root UID keeps all sixteen digest bytes |
| BlobVerify.BlobChunkHasher.Write | amp/amp.support.blobmeta.go:234-247 | the chunk so far grows by the bytes written |
| BlobVerify.BlobChunkHasher.SumChunk | amp/amp.support.blobmeta.go:264-271 | the entry of the chunk so far, and the hasher ready for the next |
| BlobVerify.BlobChunkHasher.Reset | amp/amp.support.blobmeta.go:274-278 | the chunk so far is empty again |
| BlobVerify.BlobGrainRun | amp/amp.support.blobmeta.go:283-299 | the derived run is the digest of each grain in order |
| BlobVerify.VerifyChunk | amp/amp.support.blobmeta.go:657-674 | answers as the check on index, length and re-derived entry does |
| BlobVerify.ChunkAcceptedIff | amp/amp.support.blobmeta.go:657-674 | accepted exactly when the index has an entry, the length is its span's, and the entry is the hash of the tag byte and the grain digests, an empty chunk counting as one empty grain |
| BlobVerify.MetaAcceptedIff | amp/amp.support.blobmeta.go:621-652 | a manifest is accepted exactly when the ref commits to one, exponents agree and are in bounds, the length is the stored one and above a grain, there is one digest per chunk, and the root is the leading sixteen digest bytes |
| BlobVerify.RunAcceptedIff | amp/amp.support.blobmeta.go:304-318 | a digest run is accepted exactly when it is whole digests, at least one, and the hash of the tag byte and the run is the entry |
| BlobAgreement.MintedShape | amp/amp.support.blobmeta.go:478-519 | a minted manifest has the chosen exponent, the stored length, and one digest per chunk |
| BlobAgreement.MintedInFull | amp/amp.support.blobmeta.go:478-519 | each entry of a minted manifest, through the hash itself: the truncated hash of the tag byte and the chunk's grain digests |
| BlobAgreement.GrainDigestAt | amp/amp.support.blobmeta.go:250-271 | the g-th digest in a chunk's run is the truncated hash of its g-th grain |
| BlobAgreement.SpanExact | amp/amp.support.blobmeta.go:596-603 | within a well-shaped manifest no span wraps: chunk i starts at i chunks and ends at the next or at the end |
| BlobAgreement.SpansTile | amp/amp.support.blobmeta.go:596-603 | spans are non-empty and adjacent, the first starts at 0 and the last ends at the total length |
| BlobAgreement.EveryByteInOneChunk | amp/amp.support.blobmeta.go:136-138 | every position lies in exactly one span, the one its index shift names |
| BlobAgreement.MintedChunkVerifies | amp/amp.support.blobmeta.go:657-674 | every chunk of a minted blob passes the chunk check and its digest run passes the run check |
| BlobAgreement.StampedRefVerifies | amp/amp.support.blobmeta.go:606-652 | a stamped ref accepts the minted manifest if and only if the root is not the nil UID |
| BlobAgreement.MintedWireSize | amp/amp.support.blobmeta.go:545-558 | the receiver's size bound is the exact size of the minted manifest |
| BlobAgreement.EntryBinds | amp/amp.support.blobmeta.go:264-271 | equal entries of equally long chunks mean equal chunks, or two different inputs of the hash that are named have the same digest |
| BlobAgreement.OnlyOriginalChunk | amp/amp.support.blobmeta.go:657-674 | an accepted chunk is the original span of the blob, or two different inputs hashed for it have the same digest |
| BlobAgreement.OnlyOriginalRun | amp/amp.support.blobmeta.go:304-318 | an accepted digest run is the original chunk's run, or the two, different, have the same digest |
| BlobAgreement.RefAuthenticatesChunks | amp/amp.support.blobmeta.go:606-674 | from the signed ref alone, through whatever manifest arrived, an accepted chunk is the original one or two different inputs of the hash with the same digest are exhibited |
| TxOps.ReadOpInverse | amp/amp.support.tx.go:452-583 | one op read against the previous slots gives the op back, the slots it leaves, and the untouched rest |
| TxOps.ReadAllInverse | amp/amp.support.tx.go:520-583 | from any starting slots the parser recovers every op of any writer of the format, skips and reserved slots included, and consumes the span exactly |
| TxOps.PlainRoundTrip | amp/amp.support.tx.go:452-583 | the parser undoes the writer on every op sequence with byte flags, up to the EditID the wire does not carry |
| TxOps.OpBytes | amp/amp.support.tx.go:452-496 | the bytes of one op, in order: flags, three varints, no skip, the mask, and the halves of item, attribute and node that changed |
| TxOps.PlainOpSize | amp/amp.support.tx.go:452-496 | one written op takes at most 81 bytes whatever came before |
| TxOps.PlainSize | amp/amp.support.tx.go:452-496 | and a whole section at most 81 bytes an op |
| TxOps.AppendFields | amp/amp.support.tx.go:477-489 | mask and changed slots are appended as the format lays them out |
| TxOps.AppendOps | amp/amp.support.tx.go:452-496 | the appended bytes are the back-filled length and the encoded ops |
| TxOps.SkipOutcomes | amp/amp.support.tx.go:546-553 | the wrapped cursor stays in the span and advances exactly when the skip is at most what is left; past that, which of the three faults it is |
| TxOps.SkipIsJudged | amp/amp.support.tx.go:546-553 | a skip beyond what is left is judged from the position behind it, wherever in the span that is |
| TxOps.SkipFaultsHappen | amp/amp.support.tx.go:546-553 | bytes on which each of the three faults occurs |
| TxOps.ReadOps | amp/amp.support.tx.go:520-583 | the cursor loop terminates with the ops, or the error, of the format, wrapped skips told apart |
| TxOps.ReadOpsSection | amp/amp.support.tx.go:500-515 | slices exactly the declared span and parses it, or fails |
| TxOps.SectionRoundTrip | amp/amp.support.tx.go:452-515 | a section written anywhere in a buffer reads back whole, leaving the cursor right behind it |
| TxWire.IdentityComesBack | amp/amp.support.tx.go:591-614 | reconstruction restores every EditID that is the one its value header names |
| TxWire.InlineTxIDComesBack | amp/amp.support.tx.go:591-614 | an op whose value header carries a TxID, with or without an author before it, gets that TxID |
| TxWire.OwnTxIDOtherwise | amp/amp.support.tx.go:591-614 | without one, or with an incomplete one, it gets the transaction's |
| TxWire.HeaderHoldsUIDs | amp/amp.support.tx.go:122-145 | each of the four low flag bits adds one UID to the header |
| TxWire.ValueBytesIff | amp/amp.support.tx.go:122-145 | a value is readable exactly when its op is there and its span is not empty, lies in the store and holds its header; it is the rest of the span, and each error has its cause |
| TxWire.PbRoundTrip | amp/amp.support.tx.go:1000-1034 | a length-prefixed message reads back with the cursor behind it |
| TxWire.LengthOutcomes | amp/amp.support.tx.go:1011-1034 | the wrapped end of a message is in the buffer exactly when the sum is; past that, when the check catches it and when the slice panics |
| TxWire.ReadPbOutcomes | amp/amp.support.tx.go:1011-1034 | behind its length a message is read, refused or panics exactly as its wrapped end says |
| TxWire.ReadPbNeedsLength | amp/amp.support.tx.go:1011-1034 | without a readable length there is no message |
| TxWire.PayloadRoundTrip | amp/amp.support.tx.go:994-1034 | header and ops come back from anywhere in a buffer |
| TxWire.PayloadOutcomes | amp/amp.support.tx.go:616-630 | the ops section is looked for right behind the header, and each fault is told apart |
| TxWire.SealedParts | amp/amp.support.tx.go:697-795 | the preamble of a sealed wire tells exactly where head, data and signature lie |
| TxWire.SealSignsAll | amp/amp.support.tx.go:757-779 | what is signed is the digest, framed under the author domain, of everything before the signature |
| TxWire.ProofAfterEncryption | amp/amp.support.tx.go:715-735 | a seal changes only a private envelope, only its member proof, and only after encryption succeeded |
| TxWire.SigOffsetIff | amp/amp.support.tx.go:786-795 | the signature is where the preamble says, and it must be there and behind the preamble |
| TxWire.VerifiedOpenIff | amp/amp.support.tx.go:892-907 | opening with verification is opening without it if the trailing bytes verify against the framed digest of all before them, and an error if not |
| TxWire.VerifiedOpenIsAuthored | amp/amp.support.tx.go:892-907 | where only digests of authored bytes verify, a verified wire carries authored bytes, or two different signed spans share a digest |
| TxWire.OpensIff | amp/amp.support.tx.go:836-968 | a wire opens to a message if and only if its preamble, envelope, header, ops and data, decrypted where private, are that message's |
| TxWire.ParsesIff | amp/amp.support.tx.go:976-991 | an envelope can be read off any wire with the magic, whatever its lengths |
| TxWire.OpenUndoesSeal | amp/amp.support.tx.go:697-991 | opening gives back envelope, header, data and identified ops, public or private, verified or not; the envelope parses alone; the signed span is exactly what precedes the signature |
| TxWire.SealableIsMet | amp/amp.support.tx.go:640-779 | the hypotheses of the round trip can be met: every transaction of moderate size, public or private, has a sealing provider that returns nothing for public envelopes, as its interface says |
| TxMessage.OpenPlainUndoesMarshal | amp/amp.support.tx.go:331-444 | the plain framing loses nothing |
| TxMessage.OpensPlainIff | amp/amp.support.tx.go:331-378 | a plainly framed wire opens to a message if and only if its parts are that message's |
| TxMessage.UnsealedOpensIff | amp/amp.support.tx.go:698-702 | what a seal without a provider writes opens if and only if there is no data |
| TxMessage.AuthoredIsIdentified | amp/amp.support.tx.go:268-304 | whatever was authored op by op carries the identities its wire form names |
| TxMessage.AuthoredOpens | amp/amp.support.tx.go:268-968 | whatever was authored op by op opens, from its sealed wire, to the very same transaction |
| TxMessage.ValueComesBack | amp/amp.support.tx.go:122-145 | the value bytes behind an author header are what its op yields |
| TxMessage.ValueOutcomes | amp/amp.support.tx.go:268-320 | no value is an empty one; a bad Tag is refused before a failed marshal; else the marshaled bytes are stored |
| TxMessage.TxMsg.MarshalOp | amp/amp.support.tx.go:268-304 | appends one op stamped with the TxID whose value reads back, keeps earlier ops and data, lowers the normalized flag, and writes stamp and span back to the caller's op; a refused Tag and a failed marshal leave the transaction alone |
| TxMessage.TxMsg.Upsert | amp/amp.support.tx.go:241-250 | one upsert op at the given element, its value readable |
| TxMessage.TxMsg.Delete | amp/amp.support.tx.go:252-260 | one delete op at the given element, its value readable |
| TxMessage.TxMsg.Normalize | amp/amp.support.tx.go:213-239 | succeeds exactly when every EditID is set, every span lies in the store and no two ops share an address; then the same ops are strictly ascending; the first fault decides the error and leaves the order alone |
| TxMessage.TxMsg.LoadValue | amp/amp.support.tx.go:164-193 | what is found is an op of the wanted element or attribute; on canonical ops an element is found exactly when the first and the middle op carry it |
| TxMessage.TxMsg.ReconstructEditIDs | amp/amp.support.tx.go:591-614 | every op ends with the identity its header names, in place |
| TxMessage.TxMsg.EditIDOf | amp/amp.support.tx.go:591-614 | the TxID unless a complete inline TxID lies inside span and store |
| TxMessage.TxMsg.MarshalHeadAndOps | amp/amp.support.tx.go:422-437 | preamble, envelope, header and ops, whatever the buffer held |
| TxMessage.TxMsg.MarshalToBuffer | amp/amp.support.tx.go:417-444 | the bytes are the plain framing, whatever the buffer held |
| TxMessage.TxMsg.SealTx | amp/amp.support.tx.go:697-779 | the bytes, or the error, of a seal, a private envelope left carrying its member proof; without a provider, head and ops alone |
| TxMessage.TxMsg.OpenTx | amp/amp.support.tx.go:836-968 | a fresh message holding what the wire opens to, with a provider or without, not normalized, or the error |
| Sorting.SortSlice | amp/amp.support.tx.go:228-230 | an ascending rearrangement under any strict order |
| Sorting.AscendingIsUnique | amp/amp.support.epoch.go:289-291 | ascending arrangements of the same elements coincide where the order separates them |
| TxOrder.AddressOrder | stdlib/tag/tag.address.go:42-106 | the address comparison is a total order |
| TxOrder.CompareIs | stdlib/tag/tag.address.go:42-106 | node before attribute before item, each ascending, and newer edits first |
| TxOrder.CanonicalIsUnique | amp/amp.support.tx.go:195-239 | however the ops were ordered, normalising ends in one and the same sequence |
| TxOrder.NeighboursDifferIff | amp/amp.support.tx.go:228-235 | after the sort, comparing neighbours detects every shared address |
| TxOrder.FaultlessIff | amp/amp.support.tx.go:217-227 | no first fault exactly when every op is sound |
| TxOrder.FaultOfFirst | amp/amp.support.tx.go:217-227 | the first unsound op decides: a nil EditID, or else a span outside the store |
| TxOrder.FirstIsNewest | stdlib/tag/tag.address.go:86-106 | within an element, canonical ops run from the newest edit |
| TxOrder.Search | amp/amp.support.tx.go:176-180 | on canonical ops the halving loop ends at one extreme, decided by its first comparison |
| TxOrder.SearchHitsIff | amp/amp.support.tx.go:176-192 | it hits the wanted element exactly when the first and the middle op carry it |
| TxOrder.TwoElementsAreMissed | amp/amp.support.tx.go:176-192 | of two stored elements the search finds neither |
| Bindings.FoldBinding.constructor | amp/amp.support.bindings.go:99-124 | starts with nothing folded |
| Bindings.FoldBinding.Bind | amp/amp.support.bindings.go:213-218 | binds to the node; a binding that is set may only be bound to its own |
| Bindings.FoldBinding.Clear | amp/amp.support.bindings.go:201-205 | edits, values and revision are gone, the node and the merger's state are not |
| Bindings.FoldBinding.OnNodeUpdate | amp/amp.support.bindings.go:244-325 | binds to the first node seen, folds exactly the admitted ops of the bound node, in order, and makes exactly the callbacks they call for; a vetoed or foreign op leaves no trace |
| Bindings.FoldBinding.FoldOp | amp/amp.support.bindings.go:276-320 | one op: stale edits lose, deletes tombstone, undecodable values still advance the edit, the merger may hold back; OnItem hears it unless it was stale, undecodable or a delete of an item never seen |
| Bindings.EditIsNewest | amp/amp.support.bindings.go:276-284 | one op moves an item's edit exactly when it is newer than the one recorded, or the first |
| Bindings.MergerSees | amp/amp.support.bindings.go:286-320 | with a merger: every decodable upsert reaches it, stale ones included, a delete only when fresh, and what is heard of each |
| Bindings.AdmittedAreThosePassing | amp/amp.support.bindings.go:255-275 | what is admitted of a transaction is, once each and in order, every op whose node, attribute, item and veto pass, under the transaction's own TxID and author |
| Bindings.BoundToFirst | amp/amp.support.bindings.go:244-252 | a bound binding stays bound; an unbound one takes the first node that has an ID |
| Bindings.AdmittedPerUpdate | amp/amp.support.bindings.go:244-275 | what reaches a bound binding is what each update of its node admits, one after the other |
| Bindings.ListenerHoldsItems | amp/amp.support.bindings.go:276-325 | without a merger, a listener that only follows the callbacks holds exactly the cached items, over every run |
| Bindings.FoldBinding.Run | amp/amp.support.bindings.go:244-325 | a run of updates, from a bound or an unbound binding, folds the admitted ops of all of them |
| Bindings.GroupingDoesNotMatter | amp/amp.support.bindings.go:244-325 | two runs of updates over the same admitted ops, in any order and however grouped into transactions, end the same |
| Bindings.FoldSettles | amp/amp.support.bindings.go:276-320 | after any delivery each item's edit is its newest and its value is that op's |
| Bindings.EditsConverge | amp/amp.support.bindings.go:276-320 | the edits depend only on the set of ops, decodable or not |
| Bindings.Converges | amp/amp.support.bindings.go:244-325 | edits and items depend only on the set of admitted ops: order, repetition and grouping do not matter |
| Bindings.NewestWins | amp/amp.support.bindings.go:276-320 | each item is the value of its newest op, or absent if that op is a delete |
| Bindings.Diverges | amp/amp.support.bindings.go:304-306 | two deliveries of the same ops that end differently, given an undecodable newest upsert over a decodable one |
| Bindings.OrderFreeIff | amp/amp.support.bindings.go:244-325 | the fold is a function of the set of ops if and only if no such item exists |
| MemberEpochs.MemberEpochMerger.MergeItem | amp/amp.support.memberepoch.go:71-129 | one record moves base, keys and status by their own clocks and custody rules, and reports a value exactly when something moved |
| MemberEpochs.KeysMove | amp/amp.support.memberepoch.go:94-110 | in the record's own fields: exactly when the signing and the encrypting key move, and to what |
| MemberEpochs.BaseAndStatusMove | amp/amp.support.memberepoch.go:86-122 | exactly when base, status and epoch tag move, and that nothing else changes a member |
| MemberEpochs.OnlyTheMemberReplacesKeys | amp/amp.support.memberepoch.go:94-110 | a declared key changes only by a strictly newer record carried by a transaction of its own ID, authored by the member |
| MemberEpochs.MemberEpochMerger.DropItem | amp/amp.support.memberepoch.go:63-65 | forgets one member and no other |
| MemberEpochs.StepKeepsCache | amp/amp.support.memberepoch.go:71-148 | one op keeps the binding's cached value equal to the base overridden by custody |
| MemberEpochs.CacheAlwaysServes | amp/amp.support.memberepoch.go:71-148 | and so does every run, deletes and undecodable values included |
| MemberEpochs.StepIsSafe | amp/amp.support.memberepoch.go:71-129 | no clock runs back; a declared key yields only to the member's own strictly newer declaration; a base-lane record touches no custody field; other members are untouched |
| MemberEpochs.ClocksNeverDecrease | amp/amp.support.memberepoch.go:71-129 | over every run without deletes no custody clock decreases |
| MemberEpochs.ClearedComesBackIff | amp/amp.support.bindings.go:199-205 | after a clear, a record brings its member back if and only if it still changes the merger's custody |
| MemberEpochs.ClearLosesMember | amp/amp.support.bindings.go:199-205 | the record that filled the cache does not refill it |
| MemberConvergence.FoldIsCustodyFold | amp/amp.support.memberepoch.go:71-129 | a binding's fold is, member by member, the fold of that member's records |
| MemberConvergence.KeyEndsAtNewest | amp/amp.support.memberepoch.go:94-110 | a key ends at its newest declaring record when that is self-authored or the only one, in every order with repeats |
| MemberConvergence.KeyReachableIff | amp/amp.support.memberepoch.go:94-110 | the keys some delivery of the same records ends at are exactly those of the declaring records no self-authored one is newer than |
| MemberConvergence.KeyOrderFreeIff | amp/amp.support.memberepoch.go:94-110 | the key is the same after every delivery if and only if all those records declare the same key |
| MemberConvergence.KeyClockOrderFreeIff | amp/amp.support.memberepoch.go:94-110 | the record it is held from is the same if and only if the newest declaring one is self-authored or the only one |
| MemberConvergence.BaseEndsAtNewest | amp/amp.support.memberepoch.go:86-91 | the base ends at the newest record |
| MemberConvergence.StatusEndsAtIssuer | amp/amp.support.memberepoch.go:113-122 | an issuer's newest custody-lane record decides the status |
| MemberConvergence.StatusReachableIff | amp/amp.support.memberepoch.go:113-122 | the statuses some delivery ends at are exactly those of the custody-lane records no issuer's is newer than, and unset where no issuer has written and a base-lane record can come first |
| MemberConvergence.StatusOrderFreeIff | amp/amp.support.memberepoch.go:113-122 | the status is the same after every delivery if and only if all of those agree |
| MemberConvergence.StatusClockOrderFreeIff | amp/amp.support.memberepoch.go:113-122 | the record it is held from is the same if and only if the newest custody-lane one is issuer-authored or all the member has |
| MemberConvergence.TagReachableIff | amp/amp.support.memberepoch.go:113-122 | the epoch tags some delivery ends at are exactly the contenders', older ones an untagged issuer's newest record leaves in place, and none where the status can stay unset |
| MemberConvergence.EpochOrderFreeIff | amp/amp.support.memberepoch.go:113-122 | the tag is the same after every delivery if and only if the contenders carry the same one, an untagged issuer among them finds none at all, and none is carried where the status can stay unset |
| MemberConvergence.EpochTagDiverges | amp/amp.support.memberepoch.go:113-122 | two deliveries of the same records that leave different epoch tags |
| MemberConvergence.ServedKeyOrderFreeIff | amp/amp.support.memberepoch.go:71-148 | without sentinel EditIDs, the key a binding serves is the same after every delivery under the key's own condition |
| MemberConvergence.ServedStatusOrderFreeIff | amp/amp.support.memberepoch.go:71-148 | likewise the served status, the newest record's showing where custody stays unset |
| MemberConvergence.ServedEpochOrderFreeIff | amp/amp.support.memberepoch.go:71-148 | likewise the served epoch tag |
| MemberConvergence.ServedKey | amp/amp.support.memberepoch.go:133-148 | the served key is the one custody ends at, or the base's under a sentinel EditID |
| MemberConvergence.ServedStatus | amp/amp.support.memberepoch.go:133-148 | likewise the served status |
| Media.BuildIndex | amp/std/media.go:261-268 | each segment starts where the lengths before it end, and the size is their sum |
| Media.LoadSegments | amp/std/media.go:258-268 | the collected segments in ItemID order, their blobs and lengths with them, laid end to end |
| Media.TimelineIsCanonical | amp/std/media.go:258-260 | however they were collected, distinct ItemIDs give one timeline |
| Media.MediaStreamReader.SegmentAt | amp/std/media.go:416-426 | the one non-empty segment covering the position, or none at or past the end |
| Media.MediaStreamReader.Acquire | amp/std/media.go:430-452 | the segment is last; the list is the distinct segments by last use, trimmed from the head to the budget; a failed open changes nothing |
| Media.LastUseIs | amp/std/media.go:430-452 | the use order holds every used segment once, later last uses further back |
| Media.KeepsTail | amp/std/media.go:456-463 | trimming keeps the most recently used part, always the last, within the budget unless alone |
| Media.KeepsMost | amp/std/media.go:456-463 | and no more goes than must: whatever longer part might have stayed exceeds the budget |
| Media.MediaStreamReader.Promote | amp/std/media.go:430-441 | the rotation moves one entry to the tail and keeps the rest in order |
| Media.MediaStreamReader.AppendNew | amp/std/media.go:442-451 | a fresh reader is listed at the tail and accounted |
| Media.MediaStreamReader.Evict | amp/std/media.go:456-463 | closes from the head while over budget, never the last, each victim once |
| Media.MediaStreamReader.Read | amp/std/media.go:352-381 | what is read is the stream at the position, which advances by as much, failed reads included; EOF only at the end; a non-empty request below the end makes progress or fails |
| Media.MediaStreamReader.ReadAll | amp/std/media.go:352-381 | reading to EOF from any position yields exactly the suffix of the concatenation, and up to a failure what precedes it |
| Media.MediaStreamReader.Seek | amp/std/media.go:383-400 | only the position moves, to the requested non-negative place, or nothing does |
| Media.MediaStreamReader.Close | amp/std/media.go:402-413 | every reader ever opened has been closed exactly once and none is listed |
| Media.MediaStreamReader.SegmentIsStream | amp/std/media.go:253-273 | what a covering segment holds from a position is what the concatenation holds there |
| Base58.DigitsValue | amp/amp.support.rekey.go:155-172 | the digits' base-58 value is the bytes' base-256 value, and the top digit is never zero |
| Base58.PushByte | amp/amp.support.rekey.go:161-172 | one byte folds into the buffer in place, the carry never above 255 |
| Base58.Base58btcEncode | amp/amp.support.rekey.go:155-181 | the loops produce the leading ones and the digit text |
| Base58.DecodeUndoesEncode | amp/amp.support.rekey.go:155-181 | a decoder recovers every byte string, and the leading ones count its leading zero bytes exactly |
| Base58.EncodeInjective | amp/amp.support.rekey.go:155-181 | no two byte strings encode alike |
| Base58.DIDKeyUID | amp/amp.support.rekey.go:190-198 | a 32-byte key of the Ed25519 kit, and no other, has an ID: the hash of its did:key name |
| Base58.URIPayload | amp/amp.support.rekey.go:194-197 | the name is the multibase of 0xED 0x01 and the key |
| Base58.DIDKeysDistinct | amp/amp.support.rekey.go:194-197 | no two keys share a did:key name |
| Quorum.VerifyCoSignatureQuorum | amp/amp.support.rekey.go:29-63 | the scan returns the verdict: the first fault, too few, or the signers by first appearance |
| Quorum.QuorumIsSound | amp/amp.support.rekey.go:29-63 | accepted signers are distinct and declared, each with a valid signature in the list, never fewer than one nor than asked; with no threshold exactly the declared set |
| Quorum.QuorumIff | amp/amp.support.rekey.go:29-63 | a check passes exactly when every named signer is declared, each one's first signature is valid, and the distinct ones suffice; the threshold stated in numbers |
| Quorum.NamedAreSigners | amp/amp.support.rekey.go:29-63 | those accepted are the UIDs named by the signatures, each once |
| Quorum.RefusalTells | amp/amp.support.rekey.go:29-63 | each refusal has its cause |
| Quorum.FaultTells | amp/amp.support.rekey.go:33-55 | a fault is that of the first signature with one, and says which it is |
| Quorum.QuorumsIntersect | amp/amp.support.rekey.go:29-63 | two majorities over one signer set share a signer |
| Epochs.FrameInjective | amp/amp.support.epoch.go:37-47 | the signing frame determines charter and terms |
| Epochs.FrameParses | amp/amp.support.epoch.go:37-47 | each layer lies behind its eight-byte length, the charter first |
| Epochs.ContinuityIff | amp/amp.support.epoch.go:213-252 | an epoch is accepted alone and after another exactly under the stated conditions |
| Epochs.RefusalsTell | amp/amp.support.epoch.go:213-252 | each refusal is for its own reason, the earlier ones ruled out |
| Epochs.UnreadableTermsAreRefused | amp/amp.support.epoch.go:82-93 | missing and unreadable terms are refused, the epoch's own first |
| Epochs.AssembledIsAccepted | amp/amp.support.epoch.go:167-252 | an assembled epoch passes as genesis, and as successor exactly when charter, kit, tag, height and seal agree |
| Epochs.ChainKeeps | amp/amp.support.epoch.go:213-252 | along any accepted chain charter and kit are constant, heights count steps, each names its predecessor, and only the last may be sealed |
| Epochs.ChainNeverRepeats | amp/amp.support.epoch.go:213-252 | within 2^64 steps no epoch repeats |
| Epochs.SealEndsChain | amp/amp.support.epoch.go:213-252 | nothing chains onto a sealed epoch |
| SigningFrames.SigningParts | stdlib/safe/safe.sign.go:73-85 | the segments are the tag and each part behind its length, or an error exactly when a part exceeds the frame |
| SigningFrames.FramesInjective | stdlib/safe/safe.sign.go:66-97 | no two part lists frame to the same bytes, however split |
| SigningFrames.MessageInjective | stdlib/safe/safe.sign.go:55-97 | the bytes hashed determine domain and parts |
| SigningFrames.OnePartMessage | stdlib/safe/safe.sign.go:59-97 | the domain behind its length byte, the part behind its four |
| Founders.FounderFingerprint | amp/amp.support.epoch.go:276-296 | an empty set, a founder without a key and an oversized entry are refused; else the digest of the founder set's commitment |
| Founders.EntryReads | amp/amp.support.epoch.go:280-287 | an entry is the kit's sixteen bytes and the key |
| Founders.LexicographicIff | amp/amp.support.epoch.go:289-291 | entries are ordered by their first difference, prefixes first |
| Founders.QuorumReads | amp/amp.support.epoch.go:292-294 | the quorum is the unsigned form of the int32 |
| Founders.CommitmentIff | amp/amp.support.epoch.go:265-296 | two commitments are the same bytes exactly when the founder keys (with multiplicity) and the quorum are the same; visiting order does not show |
| AccessControl.ResolveMemberGrants | amp/amp.support.acc.go:57-71 | the first explicit grant, else the first default, else nothing |
| AccessControl.ResolveAccess | amp/amp.support.acc.go:22-48 | the loop always ends with the level of the bounded walk |
| AccessControl.HasAccess | amp/amp.support.acc.go:51-53 | access is granted exactly when the resolved level reaches the required one |
| AccessControl.ResolvesToMinimum | amp/amp.support.acc.go:22-48 | on a complete chain within 64 hops the level is the least of the grants over the whole chain, and some grant attains it |
| AccessControl.MinGrantIsLeast | amp/amp.support.acc.go:22-48 | no grant of the chain is below the level, and one of them attains it |
| AccessControl.GrantIs | amp/amp.support.acc.go:57-71 | the member's grant in the epoch's own fields |
| AccessControl.GrantIsUnique | amp/amp.support.acc.go:57-71 | there is no other grant that description fits |
| AccessControl.FailsClosedIff | amp/amp.support.acc.go:22-48 | the walk gives a level if and only if the channel has a whole chain within 64 hops |
| AccessControl.TooDeepIsRefused | amp/amp.support.acc.go:22-48 | a chain that is too deep resolves to no access, whether or not it ends |
| AccessControl.BrokenIsRefused | amp/amp.support.acc.go:22-48 | so does one with a missing ancestor anywhere |
| AccessControl.CycleIsRefused | amp/amp.support.acc.go:22-48 | so does one that meets an epoch twice |
| AccessControl.FurtherParentRaisesIff | amp/amp.support.acc.go:14-48 | giving the topmost channel a further parent raises the level if and only if the chain's minimum is negative and the new chain fails closed; never where no grant is negative |
| AccessControl.FurtherParentCanRaise | amp/amp.support.acc.go:14-48 | a channel on which it does |
| BufMaps.BufMap.Locate | stdlib/data/map.go:50-66 | probing ends, at the key or the first free slot from its hash, on any table with a free slot, wrapping included |
| BufMaps.BufMap.Get | stdlib/data/map.go:27-30 | on any table the entry the probe stops at; in one without holes the stored entry of the key, for any hash function |
| BufMaps.BufMap.Put | stdlib/data/map.go:33-38 | on any table the key's probe finds the entry afterwards; a table without holes stays without, is updated at the entry's key alone, and the entry replaced is returned |
| BufMaps.BufMap.Remove | stdlib/data/map.go:41-48 | the entry the probe stops at, and nothing else, leaves the table; one without holes stays so exactly when no other probe passes the emptied slot, as when the next slot is free |
| BufMaps.RingIsModular | stdlib/data/map.go:50-66 | slots follow one another, and probe steps are counted, modulo 2^64 |
| BufMaps.SomeSlotIsFree | stdlib/data/map.go:57-65 | fewer than 2^64 entries leave a free slot, so probing terminates |
| BufMaps.ProbeFindsContents | stdlib/data/map.go:50-66 | in a table without holes the probe finds a key exactly when it is stored anywhere |
| BufMaps.StoringKeepsTidy | stdlib/data/map.go:33-38 | storing at the end of a probe makes no hole and no duplicate |
| BufMaps.RemoveIsFaithfulIff | stdlib/data/map.go:41-48 | after a removal every probe answers as the plain map if and only if no other entry's probe passes the slot |
| BufMaps.CrossedEntryIsLost | stdlib/data/map.go:41-48 | otherwise the passing entry is stored but its probe stops at the hole |
| BufMaps.EndOfClusterIsUncrossed | stdlib/data/map.go:41-48 | a free next slot is enough |
| BufMaps.RemoveCanLose | stdlib/data/map.go:41-48 | a concrete table of two entries in which removing one loses the other |
| TokenBuckets.TokenBucket.constructor | stdlib/bucket/bucket.go:29-36 | starts full |
| TokenBuckets.TokenBucket.TryTakeN | stdlib/bucket/bucket.go:67-83 | all or nothing after one refill, with the wait of a refusal where the rate is not zero; a count above the burst is refused; with a positive rate tokens stay within the burst |
| TokenBuckets.TakeInFull | stdlib/bucket/bucket.go:67-83 | in numbers: the refill capped by the burst, admission exactly when it covers the count, what is left, and the wait |
| TokenBuckets.TokenBucket.Reset | stdlib/bucket/bucket.go:86-94 | prefill capped by the burst, within bounds exactly when it is not negative |
| TokenBuckets.RunStaysFilled | stdlib/bucket/bucket.go:67-83 | over every run with a forward clock tokens stay in [0, capacity] |
| TokenBuckets.WindowIsBounded | stdlib/bucket/bucket.go:67-83 | over every run the counts admitted in any window of time sum to at most capacity + rate * window |
| TokenBuckets.WindowBoundIsReached | stdlib/bucket/bucket.go:67-83 | the bound is met by a burst at the opening and its refill at the close |
| TokenBuckets.RefusalsCostNothing | stdlib/bucket/bucket.go:67-83 | any run of refused takes leaves the next refill where it would have been |
| TokenBuckets.WaitIsExact | stdlib/bucket/bucket.go:67-83 | a refused take that fits the burst goes through once exactly the returned wait has passed and not before, other refusals meanwhile included |

## Left out

- The hash-kit registry: an unknown kit or one narrower than a meta entry is an error before any of the modelled code; kits are functions of at least 32 bytes.
- `BlobPullSpan` and the remaining chunk-address helpers: shifts of the same kind as `ChunkSpan`.
- `TxOps.ReadOps`: a skip that wraps and moves the cursor back is reported as `MovesBack`; what the code reads from there is not followed.
- `TxMessage.TxMsg.SealTx`: encryption is one deterministic function per seal, so a retried seal with fresh randomness is a different function.
- `ReadTxMsg`'s stream loop and `MarshalToWriter`: only the bytes they frame are modelled.
- `TxMessage.TxMsg.LoadValue`: returns the value's bytes; unmarshalling them is the caller's protobuf.
- `MarshalOpAndData`, the raw-value form of `MarshalOp`, and `ExtractValue`.
- `Bindings.FoldBinding.OnNodeUpdate`: `OnAdmit` is a function of address and tx; `OnItem` and `OnSync` are recorded and cannot call back into the binding.
- `Bindings.Converges`: no merger; bindings with a merger, deletes and divergent ops under one EditID are outside it, except for the member merger, whose deliveries are delete-free.
- `LocusBinding`, `ItemSelector.Normalize` and `Pin.MergeIncoming`: they repeat the fold, or do not keep what they intend.
- `Media.LoadSegments`: starts from the collected segments; gathering them from the node's ops and choosing each one's length is not modelled.
- `Media.MediaStreamReader.Read`: each blob holds at least its indexed length, and a read that does not fail returns something below its end.
- `Base58.DIDKeyUID`: the name hash is a function; that it takes different names to different UIDs is not claimed.
- `Media.MediaStreamReader.Seek`: positions and offsets are unbounded integers, so a sum past 2^63 does not wrap.
- `Epochs.ChainKeeps`: protobuf and the hash kits are functions of a `World`; co-signatures on an epoch are not part of the chain.
- `Founders.FounderFingerprint`: founder IDs only label an error in the code and are left out; the keys come as a list in the order a range over the map visits them.
- EpochLink boxes and the re-key digest: key derivation and AEAD.
- `BufMaps.BufMap.Get`: a table of 2^64 entries, on which probing never ends, is excluded.
- `BufMaps.BufMap.Put`: an entry's key is taken to stay what it was when stored.
- `TokenBuckets.TokenBucket.TryTakeN`: reals for floats and durations, so no rounding; at a rate of zero the code's wait is an infinite float turned into a duration, here no wait at all; the lock makes each call atomic.  `Take` only loops over it.
- Generated protobuf code, web API types, the TypeScript client, registries and login helpers.
