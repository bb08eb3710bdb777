/** TxMsg: authoring ops into a data store, and the seal, open and plain-framing calls over it. */
module TxMessage {
  import opened Bytes
  import opened Uids
  import opened TxOps
  import opened TxWire
  import opened TxOrder
  import Sorting

  const FLAG_UPSERT := 0x04
  const FLAG_DELETE := 0x08

  // ---- plain framing (no crypto) ----

  /** MarshalHeadAndOps' bytes; 12 to 15 are whatever the caller's buffer held there. */
  function HeadAndOps(pb: Protobuf, tx: TxImage, scratch: seq<byte>): seq<byte>
    requires |scratch| == 4
  {
    var head := WritePb(pb.marshalEnvelope(tx.envelope)) + Payload(pb, tx);
    PREAMBLE_SIGNATURE + BigEndian(PREAMBLE_SIZE + |head|, 4) + BigEndian(|tx.dataStore|, 4) + scratch + head
  }

  /** MarshalToBuffer's bytes. */
  function PlainWire(pb: Protobuf, tx: TxImage, scratch: seq<byte>): seq<byte>
    requires |scratch| == 4
  {
    HeadAndOps(pb, tx, scratch) + tx.dataStore
  }

  function OpenPlain(pb: Protobuf, wire: seq<byte>): Result<TxImage, TxError> {
    match ReadEnvelope(pb, wire)
    case Err(e) => Err(e)
    case Ok((envelope, p)) =>
      var headLen := HeadLen(wire);
      match ReadPayload(pb, wire[PREAMBLE_SIZE..headLen], p)
      case Err(e) => Err(e)
      case Ok((header, ops, _)) =>
        var dataStore := wire[headLen..headLen + DataLen(wire)];
        Ok(TxImage(envelope, header, Reconstructed(ops, dataStore, envelope.txID), dataStore))
  }

  lemma PlainPreamble(headLen: nat, dataLen: nat, scratch: seq<byte>, body: seq<byte>)
    requires |scratch| == 4 && headLen < TWO_32 && dataLen < TWO_32
    ensures var wire := PREAMBLE_SIGNATURE + BigEndian(headLen, 4) + BigEndian(dataLen, 4) + scratch + body;
      && |wire| == PREAMBLE_SIZE + |body| && wire[..4] == PREAMBLE_SIGNATURE
      && HeadLen(wire) == headLen && DataLen(wire) == dataLen && wire[PREAMBLE_SIZE..] == body
  {
    hide BigEndian, FromBigEndian;
    var wire := PREAMBLE_SIGNATURE + BigEndian(headLen, 4) + BigEndian(dataLen, 4) + scratch + body;
    BigEndianRoundTrip(headLen, 4);
    BigEndianRoundTrip(dataLen, 4);
    assert wire[4..8] == BigEndian(headLen, 4);
    assert wire[8..12] == BigEndian(dataLen, 4);
  }

  /** Opening a plainly framed TxMsg gives all of it back. */
  lemma OpenPlainUndoesMarshal(pb: Protobuf, tx: TxImage, scratch: seq<byte>)
    requires |scratch| == 4 && Writable(pb, tx) && PbInverse(pb, tx.envelope) && Identified(tx)
    requires PREAMBLE_SIZE + |WritePb(pb.marshalEnvelope(tx.envelope)) + Payload(pb, tx)| < TWO_32
    requires |tx.dataStore| < TWO_32
    ensures OpenPlain(pb, PlainWire(pb, tx, scratch)) == Ok(tx)
  {
    hide Payload, WritePb, ReadPb, HeadLen, DataLen, ReadPayload, Reconstructed, Identified, Writable, BigEndian;
    var message := pb.marshalEnvelope(tx.envelope);
    var envelope, payload := WritePb(message), Payload(pb, tx);
    var head, wire := envelope + payload, PlainWire(pb, tx, scratch);
    Associate(PREAMBLE_SIGNATURE + BigEndian(PREAMBLE_SIZE + |head|, 4) + BigEndian(|tx.dataStore|, 4) + scratch, head, tx.dataStore);
    PlainPreamble(PREAMBLE_SIZE + |head|, |tx.dataStore|, scratch, head + tx.dataStore);
    SliceOfDrop(wire, PREAMBLE_SIZE, 0, |head|);
    var headBody := wire[PREAMBLE_SIZE..HeadLen(wire)];
    assert headBody == head == [] + WritePb(message) + payload == envelope + payload + [];
    PbRoundTrip(pb.unmarshalEnvelope, message, tx.envelope, [], payload);
    PayloadRoundTrip(pb, tx, envelope, []);
    SliceOfDrop(wire, PREAMBLE_SIZE, |head|, |head| + |tx.dataStore|);
    assert (head + tx.dataStore)[|head|..|head| + |tx.dataStore|] == tx.dataStore;
    IdentityComesBack(tx);
  }

  /** What SealTx writes without a provider opens only if there is no data: the preamble declares a data store that
      the caller has yet to append. */
  lemma UnsealedOpensIff(pb: Protobuf, tx: TxImage, scratch: seq<byte>)
    requires |scratch| == 4 && Writable(pb, tx) && PbInverse(pb, tx.envelope) && Identified(tx)
    requires PREAMBLE_SIZE + |WritePb(pb.marshalEnvelope(tx.envelope)) + Payload(pb, tx)| < TWO_32
    requires |tx.dataStore| < TWO_32
    ensures OpenPlain(pb, HeadAndOps(pb, tx, scratch)) == if tx.dataStore == [] then Ok(tx) else Err(MalformedTx)
  {
    var head := WritePb(pb.marshalEnvelope(tx.envelope)) + Payload(pb, tx);
    hide Payload, WritePb, ReadPb, HeadLen, DataLen, ReadPayload, Reconstructed, Identified, Writable, BigEndian;
    PlainPreamble(PREAMBLE_SIZE + |head|, |tx.dataStore|, scratch, head);
    if tx.dataStore == [] {
      assert PlainWire(pb, tx, scratch) == HeadAndOps(pb, tx, scratch);
      OpenPlainUndoesMarshal(pb, tx, scratch);
    }
  }

  /** A wire opens plainly to exactly what it carries: "AMP1", the declared head and data inside it, and in them
      envelope, header, ops and data. */
  lemma OpensPlainIff(pb: Protobuf, wire: seq<byte>, image: TxImage)
    ensures OpenPlain(pb, wire) == Ok(image) <==>
      && |wire| >= 16 && wire[..4] == [0x41, 0x4D, 0x50, 0x31]
      && var headLen, dataLen := FromBigEndian(wire[4..8]), FromBigEndian(wire[8..12]);
      && 16 <= headLen && headLen + dataLen <= |wire|
      && var envelope := ReadPb<TxEnvelope>(pb.unmarshalEnvelope, wire[16..headLen], 0);
      && envelope.Ok? && envelope.value.0 == image.envelope
      && var payload := ReadPayload(pb, wire[16..headLen], envelope.value.1);
      && payload.Ok? && Matches(payload.value.0, payload.value.1, wire[headLen..headLen + dataLen], image)
  {
    hide ReadPb, ReadPayload, Reconstructed, FromBigEndian, Matches;
    forall header, ops, dataStore ensures Matches(header, ops, dataStore, image) <==>
      image == TxImage(image.envelope, header, Reconstructed(ops, dataStore, image.envelope.txID), dataStore) {
      MatchesIff(header, ops, dataStore, image);
    }
  }

  // ---- authoring ----

  /** An op's value: none, or a message with its marshaled bytes (None where marshaling fails) and whether, if it is
      a Tag, it passes its syntax check. */
  datatype OpValue = NoValue | Message(marshaled: Option<seq<byte>>, tagSyntaxOk: bool) {
    function Content(): seq<byte> {
      if Message? && marshaled.Some? then marshaled.value else []
    }

    function Refusal(): Result<(), TxError> {
      if NoValue? then Ok(())
      else if !tagSyntaxOk then Err(BadSyntax)
      else if marshaled.None? then Err(MarshalFailed)
      else Ok(())
    }
  }

  /** No value is an empty value; a message is refused for its Tag syntax first and then for not marshaling, and is
      otherwise its marshaled bytes. */
  lemma ValueOutcomes(marshaled: Option<seq<byte>>, tagSyntaxOk: bool)
    ensures NoValue.Refusal() == Ok(()) && NoValue.Content() == []
    ensures Message(marshaled, false).Refusal() == Err(BadSyntax) && Message(None, true).Refusal() == Err(MarshalFailed)
    ensures marshaled.Some? ==>
      Message(marshaled, true).Refusal() == Ok(()) && Message(marshaled, tagSyntaxOk).Content() == marshaled.value
  {
  }

  /** The value header MarshalOp writes: a flags byte and the author's UID. */
  function AuthorHeader(fromID: UID): (header: seq<byte>)
    ensures |header| == 1 + UID_SIZE
  {
    [HEADER_FROM_ID] + BigEndian(fromID.hi, 8) + BigEndian(fromID.lo, 8)
  }

  /** A value laid behind its author header is the value its op yields. */
  lemma ValueComesBack(tx: TxImage, opIndex: nat, fromID: UID, value: seq<byte>)
    requires opIndex < |tx.ops| && |tx.dataStore| < TWO_64
    requires var op := tx.ops[opIndex];
      && op.dataLen == 1 + UID_SIZE + |value| && op.dataOfs + op.dataLen == |tx.dataStore|
      && tx.dataStore[op.dataOfs..] == AuthorHeader(fromID) + value
    ensures OpValueBytes(tx, opIndex) == Ok(value)
    ensures tx.dataStore[tx.ops[opIndex].dataOfs] == HEADER_FROM_ID
  {
    hide BigEndian;
    var op := tx.ops[opIndex];
    var record := tx.dataStore[op.dataOfs..];
    assert record[0] == HEADER_FROM_ID;
    assert tx.dataStore[op.dataOfs + 1 + UID_SIZE..op.dataOfs + op.dataLen] == record[1 + UID_SIZE..] == value;
  }

  /** An op as MarshalOp leaves it: its EditID the TxID, its value span inside the store, headed by
      the author. */
  ghost predicate AuthoredOp(op: TxOp, tx: TxImage) {
    && op.addr.editID == tx.envelope.txID
    && op.flags < 256
    && op.dataLen >= 1 + UID_SIZE
    && op.dataOfs + op.dataLen <= |tx.dataStore| < TWO_64
    && tx.dataStore[op.dataOfs] == HEADER_FROM_ID
  }

  ghost predicate Authored(tx: TxImage) {
    forall op | op in tx.ops :: AuthoredOp(op, tx)
  }

  /** Every tx authored through MarshalOp has the identities its wire form names. */
  lemma AuthoredIsIdentified(tx: TxImage)
    requires Authored(tx)
    ensures Identified(tx) && ByteFlags(tx.ops)
  {
    forall op | op in tx.ops
      ensures op.addr.editID == ReconstructedEditID(op, tx.dataStore, tx.envelope.txID) && op.flags < 256
    {
      assert AuthoredOp(op, tx);
    }
  }

  /** Whatever was authored through MarshalOp opens, from its sealed wire, to the very same tx. */
  lemma AuthoredOpens(pb: Protobuf, crypto: CryptoProvider, tx: TxImage, reserved: seq<byte>, signerKey: seq<byte>, verifySig: bool)
    requires |reserved| == 2 && Authored(tx) && Sealable(pb, crypto, tx, signerKey)
    requires Seal(pb, crypto, tx, reserved).Ok?
    ensures Open(pb, crypto, Seal(pb, crypto, tx, reserved).value, signerKey, verifySig)
      == Ok(tx.(envelope := SealedEnvelope(pb, crypto, tx)))
  {
    AuthoredIsIdentified(tx);
    OpenUndoesSeal(pb, crypto, tx, reserved, signerKey, verifySig);
  }

  lemma AuthoredGrows(before: TxImage, after: TxImage, op: TxOp)
    requires Authored(before) && after.ops == before.ops + [op] && after.envelope == before.envelope
    requires before.dataStore <= after.dataStore && |after.dataStore| < TWO_64 && AuthoredOp(op, after)
    ensures Authored(after)
  {
    forall o | o in after.ops
      ensures AuthoredOp(o, after)
    {
      if o in before.ops {
        assert AuthoredOp(o, before);
      }
    }
  }

  class TxMsg {
    var envelope: TxEnvelope
    var header: TxHeader
    var ops: seq<TxOp>
    var dataStore: seq<byte>
    var normalized: bool

    constructor (envelope: TxEnvelope, header: TxHeader)
      ensures Image() == TxImage(envelope, header, [], []) && Authored(Image()) && !normalized
    {
      this.envelope, this.header := envelope, header;
      ops, dataStore, normalized := [], [], false;
    }

    function Image(): TxImage
      reads this
    {
      TxImage(envelope, header, ops, dataStore)
    }

    /** Appends an op and its value to the data store; a Tag value that fails its syntax check and a value that does
        not marshal are refused.  `op'` is the caller's op afterwards: stamped in any case, placed on success. */
    method MarshalOp(op: TxOp, val: OpValue) returns (r: Result<(), TxError>, op': TxOp)
      requires |dataStore| + 1 + UID_SIZE + |val.Content()| < TWO_64
      modifies this
      ensures r == val.Refusal()
      ensures r.Err? ==> unchanged(this) && op' == op.(addr := op.addr.(editID := envelope.txID))
      ensures r.Ok? ==> |ops| > 0 && ops[|ops| - 1] == op'
      ensures envelope == old(envelope) && header == old(header)
      ensures r.Ok? ==> !normalized && |ops| == |old(ops)| + 1 && ops[..|old(ops)|] == old(ops)
      ensures r.Ok? ==> dataStore == old(dataStore) + (AuthorHeader(header.fromID) + val.Content())
      ensures r.Ok? ==> var last := ops[|old(ops)|];
        && last.addr == op.addr.(editID := envelope.txID)
        && last.flags == op.flags && last.logical == op.logical
        && last.dataOfs == |old(dataStore)| && last.dataOfs + last.dataLen == |dataStore|
        && OpValueBytes(Image(), |old(ops)|) == Ok(val.Content())
      ensures old(Authored(Image())) && op.flags < 256 ==> Authored(Image())
      ensures old(FlagHolds()) ==> FlagHolds()
    {
      hide OpValueBytes, AuthorHeader, Authored, IsCanonical;
      op' := op.(addr := op.addr.(editID := envelope.txID));
      if val.Message? {
        if !val.tagSyntaxOk {
          return Err(BadSyntax), op';
        }
        if val.marshaled.None? {
          return Err(MarshalFailed), op';
        }
      }
      var startOfs := |dataStore|;
      ghost var before := Image();
      var value := AuthorHeader(header.fromID) + val.Content();
      op' := op'.(dataLen := |value|, dataOfs := startOfs);
      dataStore := dataStore + value;
      ops := ops + [op'];
      normalized := false;
      assert dataStore[startOfs..] == value;
      ValueComesBack(Image(), |ops| - 1, header.fromID, val.Content());
      if Authored(before) && op.flags < 256 {
        AuthoredGrows(before, Image(), op');
      }
      r := Ok(());
    }

    method Upsert(nodeID: UID, attrID: UID, itemID: UID, val: OpValue) returns (r: Result<(), TxError>)
      requires |dataStore| + 1 + UID_SIZE + |val.Content()| < TWO_64
      modifies this
      ensures r == val.Refusal() && (r.Err? ==> unchanged(this))
      ensures r.Ok? ==> |ops| == |old(ops)| + 1 && ops[..|old(ops)|] == old(ops)
      ensures r.Ok? ==> ops[|old(ops)|].addr == Address(nodeID, attrID, itemID, envelope.txID) && ops[|old(ops)|].flags == 4
      ensures r.Ok? ==> OpValueBytes(Image(), |old(ops)|) == Ok(val.Content())
      ensures old(Authored(Image())) ==> Authored(Image())
    {
      var op;
      r, op := MarshalOp(TxOp(Address(nodeID, attrID, itemID, NIL), FLAG_UPSERT, 0, 0, 0), val);
    }

    method Delete(nodeID: UID, attrID: UID, itemID: UID, val: OpValue) returns (r: Result<(), TxError>)
      requires |dataStore| + 1 + UID_SIZE + |val.Content()| < TWO_64
      modifies this
      ensures r == val.Refusal() && (r.Err? ==> unchanged(this))
      ensures r.Ok? ==> |ops| == |old(ops)| + 1 && ops[..|old(ops)|] == old(ops)
      ensures r.Ok? ==> ops[|old(ops)|].addr == Address(nodeID, attrID, itemID, envelope.txID) && ops[|old(ops)|].flags == 8
      ensures r.Ok? ==> OpValueBytes(Image(), |old(ops)|) == Ok(val.Content())
      ensures old(Authored(Image())) ==> Authored(Image())
    {
      var op;
      r, op := MarshalOp(TxOp(Address(nodeID, attrID, itemID, NIL), FLAG_DELETE, 0, 0, 0), val);
    }

    /** Canonical: what Normalize leaves behind when it succeeds. */
    ghost predicate IsCanonical()
      reads this
    {
      StrictlyAscending(ops) && forall op | op in ops :: SoundOp(op, |dataStore|)
    }

    /** The normalized flag is only up on canonical ops: every method that changes ops or data lowers it. */
    ghost predicate FlagHolds()
      reads this
    {
      normalized ==> IsCanonical()
    }

    method Normalize(force: bool) returns (r: Result<(), TxError>)
      requires FlagHolds() && |dataStore| < TWO_64
      modifies `ops, `normalized
      ensures FlagHolds() && multiset(ops) == multiset(old(ops))
      ensures r.Ok? <==> (forall op | op in old(ops) :: SoundOp(op, |dataStore|)) && OneOpPerAddress(multiset(old(ops)))
      ensures r.Ok? ==> normalized && IsCanonical()
      ensures r.Err? ==> !normalized
      ensures r.Err? && FirstFault(old(ops), |dataStore|).Err? ==> r == FirstFault(old(ops), |dataStore|) && ops == old(ops)
      ensures r.Err? && FirstFault(old(ops), |dataStore|).Ok? ==> r == Err(BadOp)
    {
      hide Compare, OneOpPerAddress, StrictlyAscending, Sorting.Ascending, Sorting.StrictOrder;
      FaultlessIff(ops, |dataStore|);
      if normalized {
        StrictMeansOnePerAddress(ops);
      }
      if !force && normalized {
        return Ok(());
      }
      var storeLen := |dataStore|;
      var i := 0;
      while i < |ops|
        invariant i <= |ops| && FirstFault(ops, storeLen) == FirstFault(ops[i..], storeLen)
      {
        if ops[i].addr.editID.IsNil() {
          return Err(BadEdit);
        }
        var spanEnd := (ops[i].dataOfs + ops[i].dataLen) % TWO_64;
        if spanEnd < ops[i].dataOfs || spanEnd > storeLen {
          return Err(BadOp);
        }
        i := i + 1;
      }
      ghost var given := ops;
      OpsAreOrdered();
      ops := Sorting.SortSlice(ops, OpLess);
      SameMembers(given, ops);
      NeighboursDifferIff(ops);
      i := 1;
      while i < |ops|
        invariant 1 <= i && forall k | 0 < k < i && k < |ops| :: Compare(ops[k - 1].addr, ops[k].addr) != 0
      {
        if Compare(ops[i - 1].addr, ops[i].addr) == 0 {
          return Err(BadOp);
        }
        i := i + 1;
      }
      normalized := true;
      return Ok(());
    }

    /** The value of an element, its EditID ignored, or with a wildcard item of the attribute's first op.  A
        failing Normalize is not looked at. */
    method LoadValue(want: Address) returns (r: Result<seq<byte>, TxError>)
      requires FlagHolds() && |dataStore| < TWO_64
      modifies `ops, `normalized
      ensures FlagHolds() && multiset(ops) == multiset(old(ops))
      ensures want.itemID.IsWildcard() && r == Err(AttrNotFound) ==>
        forall op | op in ops :: (op.addr.nodeID, op.addr.attrID) != (want.nodeID, want.attrID)
      ensures want.itemID.IsWildcard() && r != Err(AttrNotFound) ==>
        exists i | 0 <= i < |ops| ::
          && (ops[i].addr.nodeID, ops[i].addr.attrID) == (want.nodeID, want.attrID) && r == OpValueBytes(Image(), i)
          && forall j | 0 <= j < i :: (ops[j].addr.nodeID, ops[j].addr.attrID) != (want.nodeID, want.attrID)
      ensures !want.itemID.IsWildcard() && r != Err(AttrNotFound) ==>
        exists i | 0 <= i < |ops| :: SameElement(ops[i].addr, want) && r == OpValueBytes(Image(), i)
      ensures !want.itemID.IsWildcard() && IsCanonical() ==>
        r == if ops != [] && SameElement(ops[0].addr, want) && SameElement(ops[|ops| / 2].addr, want)
             then OpValueBytes(Image(), 0) else Err(AttrNotFound)
    {
      hide Compare, CompareElementID, OneOpPerAddress, StrictlyAscending;
      var _ := Normalize(false);
      if want.itemID.IsWildcard() {
        var i := 0;
        while i < |ops|
          invariant i <= |ops| && forall j | 0 <= j < i :: !SameAttr(ops[j].addr, want)
        {
          if SameAttr(ops[i].addr, want) {
            return OpValueBytes(Image(), i);
          }
          i := i + 1;
        }
        return Err(AttrNotFound);
      }
      var idx := Search(ops, want);
      if IsCanonical() {
        SearchHitsIff(ops, want);
      }
      if idx >= |ops| {
        return Err(AttrNotFound);
      }
      if !SameElement(ops[idx].addr, want) {
        return Err(AttrNotFound);
      }
      return OpValueBytes(Image(), idx);
    }

    method ReconstructEditIDs()
      modifies `ops
      ensures ops == Reconstructed(old(ops), dataStore, envelope.txID)
    {
      hide ReconstructedEditID;
      var i := 0;
      while i < |ops|
        invariant i <= |ops| == |old(ops)|
        invariant ops[..i] == Reconstructed(old(ops), dataStore, envelope.txID)[..i]
        invariant ops[i..] == old(ops)[i..]
      {
        var editID := EditIDOf(ops[i]);
        assert ops[i] == old(ops)[i];
        ops := ops[i := ops[i].(addr := ops[i].addr.(editID := editID))];
        i := i + 1;
      }
    }

    method EditIDOf(op: TxOp) returns (editID: UID)
      ensures editID == ReconstructedEditID(op, dataStore, envelope.txID)
    {
      hide FromBigEndian;
      editID := envelope.txID;
      if op.dataLen == 0 || op.dataOfs >= |dataStore| {
        return;
      }
      var headerFlags := dataStore[op.dataOfs];
      if headerFlags / HEADER_TX_ID % 2 == 0 {
        return;
      }
      var txIDOfs := op.dataOfs + 1;
      if headerFlags % 2 == 1 {
        txIDOfs := txIDOfs + UID_SIZE;
      }
      if txIDOfs + UID_SIZE > (op.dataOfs + op.dataLen) % TWO_64 || txIDOfs + UID_SIZE > |dataStore| {
        return;
      }
      FromBigEndian8(dataStore[txIDOfs..txIDOfs + 8]);
      FromBigEndian8(dataStore[txIDOfs + 8..txIDOfs + 16]);
      editID := UID(FromBigEndian(dataStore[txIDOfs..txIDOfs + 8]), FromBigEndian(dataStore[txIDOfs + 8..txIDOfs + 16]));
    }

    /** marshalPayload: TxHeader and ops section, after dst. */
    method MarshalPayload(pb: Protobuf, dst: seq<byte>) returns (out: seq<byte>)
      ensures out == dst + Payload(pb, Image())
    {
      hide OpsSection, WritePb;
      out := dst + WritePb(pb.marshalHeader(header));
      out := AppendOps(out, ops);
      Associate(dst, WritePb(pb.marshalHeader(header)), OpsSection(ops));
    }

    method MarshalHeadAndOps(pb: Protobuf, scratch: seq<byte>) returns (wire: seq<byte>)
      requires |scratch| == 4
      ensures wire == HeadAndOps(pb, Image(), scratch)
    {
      hide Payload, WritePb, BigEndian;
      var head := MarshalPayload(pb, WritePb(pb.marshalEnvelope(envelope)));
      wire := PREAMBLE_SIGNATURE + BigEndian(PREAMBLE_SIZE + |head|, 4) + BigEndian(|dataStore|, 4) + scratch + head;
    }

    method MarshalToBuffer(pb: Protobuf, scratch: seq<byte>) returns (wire: seq<byte>)
      requires |scratch| == 4
      ensures wire == PlainWire(pb, Image(), scratch)
    {
      wire := MarshalHeadAndOps(pb, scratch);
      wire := wire + dataStore;
    }

    /** Without a provider only head and ops are written.  `scratch` is what the caller's buffer holds from byte 12. */
    method SealTx(pb: Protobuf, provider: Option<CryptoProvider>, scratch: seq<byte>) returns (r: Result<seq<byte>, TxError>)
      requires |scratch| == 4
      modifies `envelope
      ensures r == if provider.None? then Ok(HeadAndOps(pb, old(Image()), scratch))
                   else Seal(pb, provider.value, old(Image()), scratch[2..])
      ensures envelope == if provider.None? then old(envelope) else SealedEnvelope(pb, provider.value, old(Image()))
    {
      hide Payload, WritePb, BigEndian, SignedDigest;
      ghost var before := Image();
      if provider.None? {
        var wire := MarshalHeadAndOps(pb, scratch);
        return Ok(wire);
      }
      var crypto := provider.value;
      var payload := MarshalPayload(pb, []);
      assert payload == Payload(pb, before);
      var isPublic := envelope.IsPublic();
      var wirePayload := payload;
      if !isPublic {
        var plaintext := payload + dataStore;
        var encrypted := crypto.encrypt(plaintext, envelope);
        if encrypted.None? {
          return Err(CryptoFailed);
        }
        wirePayload := encrypted.value;
        var proof := crypto.memberProof(envelope.txID.AppendTo([]), envelope);
        if proof.None? {
          return Err(CryptoFailed);
        }
        envelope := envelope.(memberProof := proof.value);
      }
      var envBuf := WritePb(pb.marshalEnvelope(envelope));
      var store := if isPublic then dataStore else [];
      var preamble := Preamble(PREAMBLE_SIZE + |envBuf| + |wirePayload|, |store|, crypto.signatureSize, scratch[2..]);
      var buf := preamble + (envBuf + wirePayload + store);
      assert SignedSpan(pb, crypto, before, scratch[2..]) == Ok(buf);
      var digest := SignedDigest(crypto, buf);
      if digest.Err? {
        return Err(digest.error);
      }
      var sig := crypto.sign(digest.value);
      if sig.None? {
        return Err(CryptoFailed);
      }
      return Ok(buf + sig.value);
    }

    /** OpenTx, or with verifySig false OpenTxSansVerify. */
    static method OpenTx(pb: Protobuf, provider: Option<CryptoProvider>, wire: seq<byte>, signerKey: seq<byte>, verifySig: bool)
      returns (r: Result<TxMsg, TxError>)
      ensures match if provider.None? then OpenPlain(pb, wire) else Open(pb, provider.value, wire, signerKey, verifySig)
              case Err(e) => r == Err(e)
              case Ok(image) => r.Ok? && fresh(r.value) && r.value.Image() == image && !r.value.normalized
    {
      hide ReadEnvelope, TxSigOffset, CheckSignature, ReadPayload, Reconstructed, HeadLen, DataLen;
      var parsed := ReadEnvelope(pb, wire);
      if parsed.Err? {
        return Err(parsed.error);
      }
      var envelope, p := parsed.value.0, parsed.value.1;
      var tx;
      if provider.None? {
        var head := ReadPayload(pb, wire[PREAMBLE_SIZE..HeadLen(wire)], p);
        if head.Err? {
          return Err(head.error);
        }
        tx := new TxMsg(envelope, head.value.0);
        tx.ops := head.value.1;
        tx.dataStore := wire[HeadLen(wire)..HeadLen(wire) + DataLen(wire)];
        tx.ReconstructEditIDs();
        return Ok(tx);
      }
      var crypto := provider.value;
      var boundary := TxSigOffset(wire);
      if boundary.Err? {
        return Err(boundary.error);
      }
      var sigOfs := boundary.value;
      if verifySig {
        var checked := CheckSignature(crypto, wire, sigOfs, signerKey);
        if checked.Err? {
          return Err(checked.error);
        }
      }
      var payload: Result<(TxHeader, seq<TxOp>, nat), TxError>, dataStore: seq<byte>;
      if envelope.IsPublic() {
        payload := ReadPayload(pb, wire[PREAMBLE_SIZE..HeadLen(wire)][p..], 0);
        dataStore := wire[HeadLen(wire)..HeadLen(wire) + DataLen(wire)];
      } else {
        if sigOfs < PREAMBLE_SIZE + p {
          return Err(MalformedTx);
        }
        var plaintext := crypto.decrypt(wire[PREAMBLE_SIZE + p..sigOfs], envelope);
        if plaintext.None? {
          return Err(CryptoFailed);
        }
        payload := ReadPayload(pb, plaintext.value, 0);
        dataStore := if payload.Ok? then plaintext.value[payload.value.2..] else [];
      }
      if payload.Err? {
        return Err(payload.error);
      }
      tx := new TxMsg(envelope, payload.value.0);
      tx.ops := payload.value.1;
      tx.dataStore := dataStore;
      tx.ReconstructEditIDs();
      return Ok(tx);
    }
  }
}
