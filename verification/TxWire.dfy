/** Sealing, opening and plain framing of a TxMsg, and the identity of its ops. */
module TxWire {
  import opened Bytes
  import opened Uids
  import opened TxOps
  import opened SigningFrames
  import Uvarint

  const PREAMBLE_SIZE := 16
  const PREAMBLE_SIGNATURE: seq<byte> := [0x41, 0x4D, 0x50, 0x31] // "AMP1"
  const UID_SIZE := 16
  const HEADER_FROM_ID: byte := 0x01
  const HEADER_TX_ID: byte := 0x02

  /** "amp.sig.tx.v1". */
  const TX_AUTHOR: seq<byte> := [0x61, 0x6D, 0x70, 0x2E, 0x73, 0x69, 0x67, 0x2E, 0x74, 0x78, 0x2E, 0x76, 0x31]

  datatype TxEnvelope = TxEnvelope(txID: UID, planetID: UID, epochID: UID, planetEpochID: UID, memberProof: seq<byte>) {
    predicate IsPublic() {
      epochID.IsNil()
    }
  }

  datatype TxHeader = TxHeader(contextID: UID, fromID: UID, status: nat, request: seq<byte>)

  /** The contents of a TxMsg. */
  datatype TxImage = TxImage(envelope: TxEnvelope, header: TxHeader, ops: seq<TxOp>, dataStore: seq<byte>)

  datatype TxError =
    | MalformedTx | BadOp | BadEdit | AttrNotFound | BadSyntax | MarshalFailed | BadSignatureLength | PartTooLong | CryptoFailed | BadSignature
    | Panicked       // an index wrapped and a slice is out of range
    | CursorMovedBack // a reserved skip wrapped; what is read after it is not modelled

  /** Protobuf marshalling of the two messages. */
  datatype Protobuf = Protobuf(
    marshalEnvelope: TxEnvelope -> seq<byte>, unmarshalEnvelope: seq<byte> -> Option<TxEnvelope>,
    marshalHeader: TxHeader -> seq<byte>, unmarshalHeader: seq<byte> -> Option<TxHeader>)

  /** What one seal and its open ask of the CryptoProvider; None is an error. */
  datatype CryptoProvider = CryptoProvider(
    signatureSize: nat,
    hashDigest: seq<seq<byte>> -> Option<seq<byte>>,
    sign: seq<byte> -> Option<seq<byte>>,
    verify: (seq<byte>, seq<byte>, seq<byte>) -> bool, // signature, digest, signer key
    encrypt: (seq<byte>, TxEnvelope) -> Option<seq<byte>>,
    decrypt: (seq<byte>, TxEnvelope) -> Option<seq<byte>>,
    memberProof: (seq<byte>, TxEnvelope) -> Option<seq<byte>>)

  // ---- the identity of an op ----

  function ReconstructedEditID(op: TxOp, dataStore: seq<byte>, txID: UID): UID {
    if op.dataLen == 0 || op.dataOfs >= |dataStore| then txID else
    var headerFlags := dataStore[op.dataOfs];
    if headerFlags / HEADER_TX_ID % 2 == 0 then txID else
    var txIDOfs := op.dataOfs + 1 + (if headerFlags % 2 == 1 then UID_SIZE else 0);
    if txIDOfs + UID_SIZE > (op.dataOfs + op.dataLen) % TWO_64 || txIDOfs + UID_SIZE > |dataStore| then txID else
    FromBigEndian8(dataStore[txIDOfs..txIDOfs + 8]);
    FromBigEndian8(dataStore[txIDOfs + 8..txIDOfs + 16]);
    UID(FromBigEndian(dataStore[txIDOfs..txIDOfs + 8]), FromBigEndian(dataStore[txIDOfs + 8..txIDOfs + 16]))
  }

  function Reconstructed(ops: seq<TxOp>, dataStore: seq<byte>, txID: UID): (r: seq<TxOp>)
    ensures |r| == |ops|
  {
    seq(|ops|, i requires 0 <= i < |ops| =>
      ops[i].(addr := ops[i].addr.(editID := ReconstructedEditID(ops[i], dataStore, txID))))
  }

  /** Every op carries the EditID its value header names. */
  predicate Identified(tx: TxImage) {
    forall op | op in tx.ops :: op.addr.editID == ReconstructedEditID(op, tx.dataStore, tx.envelope.txID)
  }

  lemma IdentityComesBack(tx: TxImage)
    requires Identified(tx)
    ensures Reconstructed(StrippedOps(tx.ops), tx.dataStore, tx.envelope.txID) == tx.ops
  {
    hide ReconstructedEditID;
    forall i | 0 <= i < |tx.ops|
      ensures Reconstructed(StrippedOps(tx.ops), tx.dataStore, tx.envelope.txID)[i] == tx.ops[i]
    {
      assert tx.ops[i] in tx.ops;
      SameSpanSameIdentity(tx.ops[i], Stripped(tx.ops[i]), tx.dataStore, tx.envelope.txID);
    }
  }

  lemma SameSpanSameIdentity(a: TxOp, b: TxOp, dataStore: seq<byte>, txID: UID)
    requires a.dataOfs == b.dataOfs && a.dataLen == b.dataLen
    ensures ReconstructedEditID(a, dataStore, txID) == ReconstructedEditID(b, dataStore, txID)
  {
  }

  /** An op whose value header carries an inline TxID, after the author's UID if that is there too, gets that TxID. */
  lemma InlineTxIDComesBack(op: TxOp, dataStore: seq<byte>, txID: UID, flags: byte, from: seq<byte>, inline: UID,
                            before: seq<byte>, after: seq<byte>)
    requires flags / 2 % 2 == 1 && |from| == (if flags % 2 == 1 then 16 else 0)
    requires dataStore == before + ([flags] + from + inline.AppendTo([])) + after && |dataStore| < TWO_64
    requires op.dataOfs == |before| && 17 + |from| <= op.dataLen && op.dataOfs + op.dataLen < TWO_64
    ensures ReconstructedEditID(op, dataStore, txID) == inline
  {
    hide BigEndian, FromBigEndian;
    var start := |before| + 1 + |from|;
    BigEndianRoundTrip(inline.hi, 8);
    BigEndianRoundTrip(inline.lo, 8);
    assert dataStore[|before|] == flags;
    assert dataStore[start..start + 8] == BigEndian(inline.hi, 8);
    assert dataStore[start + 8..start + 16] == BigEndian(inline.lo, 8);
  }

  /** One without it, with none in its span, or with none in the store is the tx's own. */
  lemma OwnTxIDOtherwise(op: TxOp, dataStore: seq<byte>, txID: UID)
    requires op.dataOfs + op.dataLen < TWO_64
    requires op.dataLen == 0 || op.dataOfs >= |dataStore| || dataStore[op.dataOfs] / 2 % 2 == 0
      || var need := 17 + (if dataStore[op.dataOfs] % 2 == 1 then 16 else 0); need > op.dataLen || op.dataOfs + need > |dataStore|
    ensures ReconstructedEditID(op, dataStore, txID) == txID
  {
  }

  // ---- value spans ----

  function HeaderSize(flags: byte): nat {
    1 + UID_SIZE * (flags % 2 + flags / 2 % 2 + flags / 4 % 2 + flags / 8 % 2)
  }

  /** The value bytes of an op, its header skipped. */
  function OpValueBytes(tx: TxImage, opIndex: int): Result<seq<byte>, TxError> {
    if opIndex < 0 || opIndex >= |tx.ops| then Err(MalformedTx) else
    var op := tx.ops[opIndex];
    var end := (op.dataOfs + op.dataLen) % TWO_64;
    if op.dataLen < 1 || op.dataOfs > end || end > |tx.dataStore| then Err(BadOp) else
    var ofs := op.dataOfs + HeaderSize(tx.dataStore[op.dataOfs]);
    if ofs > end then Err(BadOp) else Ok(tx.dataStore[ofs..end])
  }

  /** The low four flag bits each announce one UID in the header. */
  lemma HeaderHoldsUIDs(a: nat, b: nat, c: nat, d: nat, rest: nat)
    requires a < 2 && b < 2 && c < 2 && d < 2 && rest < 16
    ensures HeaderSize(a + 2 * (b + 2 * (c + 2 * (d + 2 * rest)))) == 1 + 16 * a + 16 * b + 16 * c + 16 * d
  {
    var f1, f2, f3 := b + 2 * (c + 2 * (d + 2 * rest)), c + 2 * (d + 2 * rest), d + 2 * rest;
    var flags := a + 2 * f1;
    assert flags / 2 == f1 && f1 / 2 == f2 && f2 / 2 == f3;
    assert flags / 4 == flags / 2 / 2 && flags / 8 == flags / 2 / 2 / 2;
  }

  /** A value is readable exactly when its op is there, its span is not empty, lies in the store and holds its header;
      it is then the rest of the span. */
  lemma ValueBytesIff(tx: TxImage, opIndex: int)
    requires |tx.dataStore| < TWO_64
    ensures OpValueBytes(tx, opIndex) == Err(MalformedTx) <==> !(0 <= opIndex < |tx.ops|)
    ensures 0 <= opIndex < |tx.ops| ==>
      var (ofs, len) := (tx.ops[opIndex].dataOfs, tx.ops[opIndex].dataLen);
      OpValueBytes(tx, opIndex) ==
        if 0 < len && ofs + len <= |tx.dataStore| && HeaderSize(tx.dataStore[ofs]) <= len
        then Ok(tx.dataStore[ofs..ofs + len][HeaderSize(tx.dataStore[ofs])..]) else Err(BadOp)
  {
    hide HeaderSize;
  }

  // ---- length-prefixed messages ----

  function WritePb(message: seq<byte>): seq<byte> {
    Uvarint.Put(|message|) + message
  }

  function ReadPb<M>(unmarshal: seq<byte> -> Option<M>, src: seq<byte>, p: nat): (r: Result<(M, nat), TxError>)
    ensures r.Ok? ==> p < r.value.1 <= |src|
  {
    if p >= |src| then Err(MalformedTx) else
    match Uvarint.Get(src[p..])
    case None => Err(MalformedTx)
    case Some((byteLen, n)) =>
      var end := p + n + byteLen;
      if end > |src| then Err(if end < TWO_63 then MalformedTx else Panicked) else
      match unmarshal(src[p + n..end])
      case None => Err(MalformedTx)
      case Some(m) => Ok((m, end))
  }

  /** The message lies in the buffer exactly when its end does; past that, the check `end > len(src)` catches it unless
      the sum wrapped, and then end is negative or before its start. */
  lemma LengthOutcomes(len: nat, start: nat, byteLen: u64)
    requires start <= len < TWO_63
    ensures var end := Wrap64(start + ToInt64(byteLen));
      && (start <= end <= len <==> start + byteLen <= len)
      && (start + byteLen > len ==> (end > len <==> start + byteLen < TWO_63))
      && (start + byteLen > len ==> (end < start <==> start + byteLen >= TWO_63))
  {
  }

  /** Behind its length, a message is read exactly when its bytes lie in the buffer and unmarshal; a length whose end wraps
      negative or before its start escapes the check and panics. */
  lemma ReadPbOutcomes<M>(unmarshal: seq<byte> -> Option<M>, src: seq<byte>, p: nat, byteLen: u64, n: nat)
    requires p <= |src| < TWO_63 && Uvarint.Get(src[p..]) == Some((byteLen, n))
    ensures n <= |src| - p
    ensures var end := Wrap64(p + n + ToInt64(byteLen));
      ReadPb(unmarshal, src, p) ==
        if end > |src| then Err(MalformedTx)
        else if end < p + n then Err(Panicked)
        else match unmarshal(src[p + n..p + n + byteLen]) case None => Err(MalformedTx) case Some(m) => Ok((m, p + n + byteLen))
  {
    hide Uvarint.Get;
    LengthOutcomes(|src|, p + n, byteLen);
  }

  /** Without a length there is no message. */
  lemma ReadPbNeedsLength<M>(unmarshal: seq<byte> -> Option<M>, src: seq<byte>, p: nat)
    requires p <= |src| && Uvarint.Get(src[p..]).None?
    ensures ReadPb(unmarshal, src, p) == Err(MalformedTx)
  {
  }

  lemma PbRoundTrip<M>(unmarshal: seq<byte> -> Option<M>, message: seq<byte>, m: M, before: seq<byte>, after: seq<byte>)
    requires unmarshal(message) == Some(m) && |message| < TWO_63
    ensures ReadPb(unmarshal, before + WritePb(message) + after, |before|) == Ok((m, |before| + |WritePb(message)|))
  {
    hide Uvarint.Put, Uvarint.Get;
    var src := before + WritePb(message) + after;
    Uvarint.RoundTrip(|message|, message + after);
    assert src[|before|..] == Uvarint.Put(|message|) + (message + after);
    var start := |before| + |Uvarint.Put(|message|)|;
    assert src[start..start + |message|] == message;
  }

  lemma LeadingPb<M>(unmarshal: seq<byte> -> Option<M>, message: seq<byte>, m: M, after: seq<byte>)
    requires unmarshal(message) == Some(m) && |message| < TWO_63
    ensures ReadPb(unmarshal, WritePb(message) + after, 0) == Ok((m, |WritePb(message)|))
  {
    hide WritePb, ReadPb;
    assert [] + WritePb(message) + after == WritePb(message) + after;
    PbRoundTrip(unmarshal, message, m, [], after);
  }

  /** The ops section must be found after the header. */
  function FromWire<T>(r: Result<T, WireError>): Result<T, TxError> {
    match r
    case Ok(v) => Ok(v)
    case Err(Malformed) => Err(MalformedTx)
    case Err(Panics) => Err(Panicked)
    case Err(MovesBack) => Err(CursorMovedBack)
  }

  /** TxHeader and ops from position p of src; the result carries the position after them. */
  function ReadPayload(pb: Protobuf, src: seq<byte>, p: nat): (r: Result<(TxHeader, seq<TxOp>, nat), TxError>)
    ensures r.Ok? ==> r.value.2 <= |src|
  {
    match ReadPb<TxHeader>(pb.unmarshalHeader, src, p)
    case Err(e) => Err(e)
    case Ok((header, hp)) =>
      match FromWire<(seq<TxOp>, nat)>(ReadSection(src, hp))
      case Err(e) => Err(e)
      case Ok((ops, end)) => Ok((header, ops, end))
  }

  /** The ops section is looked for right behind the header, and each of its faults is told apart. */
  lemma PayloadOutcomes(pb: Protobuf, src: seq<byte>, p: nat)
    ensures var header := ReadPb<TxHeader>(pb.unmarshalHeader, src, p);
      if header.Err? then ReadPayload(pb, src, p) == Err(header.error) else
      var section := ReadSection(src, header.value.1);
      && (section.Ok? ==> ReadPayload(pb, src, p) == Ok((header.value.0, section.value.0, section.value.1)))
      && (section == Err(WireError.Malformed) ==> ReadPayload(pb, src, p) == Err(MalformedTx))
      && (section == Err(WireError.Panics) ==> ReadPayload(pb, src, p) == Err(Panicked))
      && (section == Err(WireError.MovesBack) ==> ReadPayload(pb, src, p) == Err(CursorMovedBack))
  {
    hide ReadPb, ReadSection;
  }

  function Payload(pb: Protobuf, tx: TxImage): seq<byte> {
    WritePb(pb.marshalHeader(tx.header)) + OpsSection(tx.ops)
  }

  predicate Writable(pb: Protobuf, tx: TxImage) {
    && ByteFlags(tx.ops)
    && |EncodeOps(ZERO_SLOTS, PlainOps(tx.ops))| < TWO_32
    && |pb.marshalHeader(tx.header)| < TWO_63
    && pb.unmarshalHeader(pb.marshalHeader(tx.header)) == Some(tx.header)
  }

  lemma PayloadRoundTrip(pb: Protobuf, tx: TxImage, before: seq<byte>, after: seq<byte>)
    requires Writable(pb, tx)
    ensures ReadPayload(pb, before + Payload(pb, tx) + after, |before|)
      == Ok((tx.header, StrippedOps(tx.ops), |before| + |Payload(pb, tx)|))
  {
    hide ReadPb, ReadSection, WritePb, OpsSection, EncodeOps;
    var header, section := WritePb(pb.marshalHeader(tx.header)), OpsSection(tx.ops);
    assert before + Payload(pb, tx) + after == before + header + (section + after);
    PbRoundTrip(pb.unmarshalHeader, pb.marshalHeader(tx.header), tx.header, before, section + after);
    assert before + Payload(pb, tx) + after == (before + header) + section + after;
    SectionRoundTrip(before + header, tx.ops, after);
  }

  // ---- the preamble ----

  /** Bytes 14 and 15 are whatever the caller's buffer held there. */
  function Preamble(headLen: nat, dataLen: nat, sigLen: nat, reserved: seq<byte>): (p: seq<byte>)
    requires |reserved| == 2
    ensures |p| == PREAMBLE_SIZE
  {
    PREAMBLE_SIGNATURE + BigEndian(headLen, 4) + BigEndian(dataLen, 4) + BigEndian(sigLen, 2) + reserved
  }

  function HeadLen(wire: seq<byte>): nat
    requires |wire| >= PREAMBLE_SIZE
  {
    FromBigEndian(wire[4..8])
  }

  function DataLen(wire: seq<byte>): nat
    requires |wire| >= PREAMBLE_SIZE
  {
    FromBigEndian(wire[8..12])
  }

  /** Where the trailing signature begins. */
  function TxSigOffset(wire: seq<byte>): (r: Result<nat, TxError>)
    ensures r.Ok? ==> PREAMBLE_SIZE <= r.value < |wire|
  {
    if |wire| < PREAMBLE_SIZE then Err(MalformedTx) else
    var sigLen := FromBigEndian(wire[12..14]);
    if sigLen == 0 || sigLen > |wire| - PREAMBLE_SIZE then Err(BadSignatureLength) else Ok(|wire| - sigLen)
  }

  /** The declared signature must be there, and behind the preamble. */
  lemma SigOffsetIff(wire: seq<byte>)
    ensures TxSigOffset(wire) == Err(MalformedTx) <==> |wire| < 16
    ensures |wire| >= 16 ==>
      var sigLen := FromBigEndian(wire[12..14]);
      TxSigOffset(wire) == if 0 < sigLen && 16 + sigLen <= |wire| then Ok(|wire| - sigLen) else Err(BadSignatureLength)
  {
    hide FromBigEndian;
  }

  lemma PreambleReads(headLen: nat, dataLen: nat, sigLen: nat, reserved: seq<byte>, body: seq<byte>)
    requires |reserved| == 2 && headLen < TWO_32 && dataLen < TWO_32 && sigLen < 0x1_0000
    ensures var wire := Preamble(headLen, dataLen, sigLen, reserved) + body;
      && wire[..4] == PREAMBLE_SIGNATURE && HeadLen(wire) == headLen && DataLen(wire) == dataLen
      && FromBigEndian(wire[12..14]) == sigLen && wire[PREAMBLE_SIZE..] == body
  {
    hide BigEndian, FromBigEndian;
    var wire := Preamble(headLen, dataLen, sigLen, reserved) + body;
    BigEndianRoundTrip(headLen, 4);
    BigEndianRoundTrip(dataLen, 4);
    BigEndianRoundTrip(sigLen, 2);
    assert wire[4..8] == BigEndian(headLen, 4);
    assert wire[8..12] == BigEndian(dataLen, 4);
    assert wire[12..14] == BigEndian(sigLen, 2);
  }

  // ---- seal ----

  /** The envelope after a seal: a private one carries the member proof. */
  function SealedEnvelope(pb: Protobuf, crypto: CryptoProvider, tx: TxImage): TxEnvelope {
    if tx.envelope.IsPublic() then tx.envelope else
    if crypto.encrypt(Payload(pb, tx) + tx.dataStore, tx.envelope).None? then tx.envelope else
    match crypto.memberProof(tx.envelope.txID.AppendTo([]), tx.envelope)
    case None => tx.envelope
    case Some(proof) => tx.envelope.(memberProof := proof)
  }

  /** Only a private envelope changes, only in its member proof, and only once the payload is encrypted. */
  lemma ProofAfterEncryption(pb: Protobuf, crypto: CryptoProvider, tx: TxImage)
    ensures var e := tx.envelope;
      && var proof := crypto.memberProof(e.txID.AppendTo([]), e);
      && var encrypted := crypto.encrypt(Payload(pb, tx) + tx.dataStore, e);
      SealedEnvelope(pb, crypto, tx) == TxEnvelope(e.txID, e.planetID, e.epochID, e.planetEpochID,
        if e.epochID != UID(0, 0) && encrypted.Some? && proof.Some? then proof.value else e.memberProof)
  {
    hide Payload;
  }

  /** What follows the envelope in the head, and what follows the head. */
  function SealedBody(pb: Protobuf, crypto: CryptoProvider, tx: TxImage): Result<(seq<byte>, seq<byte>), TxError> {
    var payload := Payload(pb, tx);
    if tx.envelope.IsPublic() then Ok((payload, tx.dataStore)) else
    match crypto.encrypt(payload + tx.dataStore, tx.envelope)
    case None => Err(CryptoFailed)
    case Some(encrypted) =>
      if crypto.memberProof(tx.envelope.txID.AppendTo([]), tx.envelope).None? then Err(CryptoFailed)
      else Ok((encrypted, []))
  }

  /** The wire up to the signature. */
  function SignedSpan(pb: Protobuf, crypto: CryptoProvider, tx: TxImage, reserved: seq<byte>): Result<seq<byte>, TxError>
    requires |reserved| == 2
  {
    match SealedBody(pb, crypto, tx)
    case Err(e) => Err(e)
    case Ok((wirePayload, store)) =>
      var envelope := WritePb(pb.marshalEnvelope(SealedEnvelope(pb, crypto, tx)));
      Ok(Preamble(PREAMBLE_SIZE + |envelope| + |wirePayload|, |store|, crypto.signatureSize, reserved)
         + (envelope + wirePayload + store))
  }

  function SignedDigest(crypto: CryptoProvider, signed: seq<byte>): Result<seq<byte>, TxError> {
    if !Framable([signed]) then Err(TxError.PartTooLong) else
    match crypto.hashDigest(Framed(TX_AUTHOR, [signed]))
    case None => Err(CryptoFailed)
    case Some(digest) => Ok(digest)
  }

  function Seal(pb: Protobuf, crypto: CryptoProvider, tx: TxImage, reserved: seq<byte>): Result<seq<byte>, TxError>
    requires |reserved| == 2
  {
    match SignedSpan(pb, crypto, tx, reserved)
    case Err(e) => Err(e)
    case Ok(signed) =>
      match SignedDigest(crypto, signed)
      case Err(e) => Err(e)
      case Ok(digest) =>
        match crypto.sign(digest)
        case None => Err(CryptoFailed)
        case Some(sig) => Ok(signed + sig)
  }

  // ---- open ----

  /** The cleartext envelope, and the position after it in the head body. */
  function ReadEnvelope(pb: Protobuf, wire: seq<byte>): (r: Result<(TxEnvelope, nat), TxError>)
    ensures r.Ok? ==> (
      && |wire| >= PREAMBLE_SIZE && PREAMBLE_SIZE <= HeadLen(wire) <= |wire|
      && HeadLen(wire) + DataLen(wire) <= |wire| && PREAMBLE_SIZE + r.value.1 <= HeadLen(wire))
  {
    if |wire| < PREAMBLE_SIZE || wire[..4] != PREAMBLE_SIGNATURE then Err(MalformedTx) else
    var headLen, dataLen := HeadLen(wire), DataLen(wire);
    if headLen < PREAMBLE_SIZE || headLen > |wire| || dataLen > |wire| - headLen then Err(MalformedTx) else
    ReadPb<TxEnvelope>(pb.unmarshalEnvelope, wire[PREAMBLE_SIZE..headLen], 0)
  }

  function CheckSignature(crypto: CryptoProvider, wire: seq<byte>, sigOfs: nat, signerKey: seq<byte>): Result<(), TxError>
    requires sigOfs <= |wire|
  {
    match SignedDigest(crypto, wire[..sigOfs])
    case Err(e) => Err(e)
    case Ok(digest) => if crypto.verify(wire[sigOfs..], digest, signerKey) then Ok(()) else Err(BadSignature)
  }

  function OpenPayload(pb: Protobuf, crypto: CryptoProvider, wire: seq<byte>, envelope: TxEnvelope, p: nat, sigOfs: nat):
    Result<TxImage, TxError>
    requires PREAMBLE_SIZE <= |wire| && PREAMBLE_SIZE <= HeadLen(wire) && HeadLen(wire) + DataLen(wire) <= |wire|
    requires PREAMBLE_SIZE + p <= HeadLen(wire) && sigOfs <= |wire|
  {
    var headLen, dataLen := HeadLen(wire), DataLen(wire);
    if envelope.IsPublic() then
      match ReadPayload(pb, wire[PREAMBLE_SIZE..headLen][p..], 0)
      case Err(e) => Err(e)
      case Ok((header, ops, _)) =>
        var dataStore := wire[headLen..headLen + dataLen];
        Ok(TxImage(envelope, header, Reconstructed(ops, dataStore, envelope.txID), dataStore))
    else if sigOfs < PREAMBLE_SIZE + p then Err(MalformedTx)
    else
      match crypto.decrypt(wire[PREAMBLE_SIZE + p..sigOfs], envelope)
      case None => Err(CryptoFailed)
      case Some(plaintext) =>
        match ReadPayload(pb, plaintext, 0)
        case Err(e) => Err(e)
        case Ok((header, ops, hp)) =>
          var dataStore := plaintext[hp..];
          Ok(TxImage(envelope, header, Reconstructed(ops, dataStore, envelope.txID), dataStore))
  }

  /** OpenTx, and with verifySig false OpenTxSansVerify. */
  function Open(pb: Protobuf, crypto: CryptoProvider, wire: seq<byte>, signerKey: seq<byte>, verifySig: bool):
    Result<TxImage, TxError>
  {
    match ReadEnvelope(pb, wire)
    case Err(e) => Err(e)
    case Ok((envelope, p)) =>
      match TxSigOffset(wire)
      case Err(e) => Err(e)
      case Ok(sigOfs) =>
        if verifySig && CheckSignature(crypto, wire, sigOfs, signerKey).Err?
        then Err(CheckSignature(crypto, wire, sigOfs, signerKey).error)
        else OpenPayload(pb, crypto, wire, envelope, p, sigOfs)
  }

  function ParseTxEnvelope(pb: Protobuf, wire: seq<byte>): Result<TxEnvelope, TxError> {
    if |wire| < PREAMBLE_SIZE || wire[..4] != PREAMBLE_SIGNATURE then Err(MalformedTx) else
    match ReadPb<TxEnvelope>(pb.unmarshalEnvelope, wire[PREAMBLE_SIZE..], 0)
    case Err(e) => Err(e)
    case Ok((envelope, _)) => Ok(envelope)
  }

  // ---- what an opened wire is ----

  /** The wire carries the author's signature: its trailing bytes verify against the digest of all bytes before them,
      framed under the author domain. */
  ghost predicate SignatureHolds(crypto: CryptoProvider, wire: seq<byte>, signerKey: seq<byte>) {
    && 16 <= |wire|
    && var sigLen := FromBigEndian(wire[12..14]);
    && 0 < sigLen <= |wire| - 16
    && var signed := wire[..|wire| - sigLen];
    && |signed| < TWO_32
    && var digest := crypto.hashDigest(Framed(TX_AUTHOR, [signed]));
    && digest.Some? && crypto.verify(wire[|wire| - sigLen..], digest.value, signerKey)
  }

  /** Opening with verification is opening without it, of a wire that carries the author's signature; any other is
      refused. */
  lemma VerifiedOpenIff(pb: Protobuf, crypto: CryptoProvider, wire: seq<byte>, signerKey: seq<byte>)
    ensures SignatureHolds(crypto, wire, signerKey) ==>
      Open(pb, crypto, wire, signerKey, true) == Open(pb, crypto, wire, signerKey, false)
    ensures !SignatureHolds(crypto, wire, signerKey) ==> Open(pb, crypto, wire, signerKey, true).Err?
  {
    hide ReadEnvelope, OpenPayload, FromBigEndian, Framed, Framable;
    if |wire| >= 16 {
      var sigLen := FromBigEndian(wire[12..14]);
      if 0 < sigLen <= |wire| - 16 {
        OneFramable(wire[..|wire| - sigLen]);
      }
    }
  }

  lemma OneFramable(part: seq<byte>)
    ensures Framable([part]) <==> |part| < TWO_32
  {
    assert part in [part];
  }

  /** Where only digests of bytes the author signed verify, a verified wire carries such bytes before its signature, or
      two different signed spans have the same digest. */
  lemma VerifiedOpenIsAuthored(pb: Protobuf, crypto: CryptoProvider, wire: seq<byte>, signerKey: seq<byte>, authored: set<seq<byte>>)
    requires Open(pb, crypto, wire, signerKey, true).Ok?
    requires forall sig, digest | crypto.verify(sig, digest, signerKey) ::
      exists b | b in authored :: crypto.hashDigest(Framed(TX_AUTHOR, [b])) == Some(digest)
    ensures TxSigOffset(wire).Ok?
    ensures var signed := wire[..TxSigOffset(wire).value];
      signed in authored || exists b | b in authored ::
        b != signed && crypto.hashDigest(Framed(TX_AUTHOR, [b])).Some?
        && crypto.hashDigest(Framed(TX_AUTHOR, [b])) == crypto.hashDigest(Framed(TX_AUTHOR, [signed]))
  {
    hide ReadEnvelope, OpenPayload, FromBigEndian, Framed, Open;
    VerifiedOpenIff(pb, crypto, wire, signerKey);
  }

  /** A seal signs the digest of everything before the signature, framed under the author domain. */
  lemma SealSignsAll(pb: Protobuf, crypto: CryptoProvider, tx: TxImage, reserved: seq<byte>)
    requires |reserved| == 2 && Seal(pb, crypto, tx, reserved).Ok?
    ensures exists signed, digest, sig ::
      && Seal(pb, crypto, tx, reserved).value == signed + sig
      && SignedSpan(pb, crypto, tx, reserved) == Ok(signed)
      && crypto.hashDigest(Framed(TX_AUTHOR, [signed])) == Some(digest) && crypto.sign(digest) == Some(sig)
  {
    hide SignedSpan, Framed;
  }

  /** The wire starts with "AMP1", its declared head and data lie inside it, it declares a signature, and envelope,
      header, ops and data are what those bytes, decrypted where private, say. */
  ghost predicate Carries(pb: Protobuf, crypto: CryptoProvider, wire: seq<byte>, image: TxImage) {
    && |wire| >= 16 && wire[..4] == [0x41, 0x4D, 0x50, 0x31]
    && var headLen, dataLen, sigLen := FromBigEndian(wire[4..8]), FromBigEndian(wire[8..12]), FromBigEndian(wire[12..14]);
    && 16 <= headLen && headLen + dataLen <= |wire| && 0 < sigLen <= |wire| - 16
    && var envelope := ReadPb<TxEnvelope>(pb.unmarshalEnvelope, wire[16..headLen], 0);
    && envelope.Ok? && envelope.value.0 == image.envelope
    && var p := 16 + envelope.value.1;
    && if image.envelope.epochID == UID(0, 0) then
         var payload := ReadPayload(pb, wire[p..headLen], 0);
         payload.Ok? && Matches(payload.value.0, payload.value.1, wire[headLen..headLen + dataLen], image)
       else
         p <= |wire| - sigLen &&
         var plain := crypto.decrypt(wire[p..|wire| - sigLen], image.envelope);
         plain.Some? &&
         var payload := ReadPayload(pb, plain.value, 0);
         payload.Ok? && Matches(payload.value.0, payload.value.1, plain.value[payload.value.2..], image)
  }

  ghost predicate Matches(header: TxHeader, ops: seq<TxOp>, dataStore: seq<byte>, image: TxImage) {
    && image.header == header && image.dataStore == dataStore && |image.ops| == |ops|
    && forall i | 0 <= i < |ops| ::
         image.ops[i] == ops[i].(addr := ops[i].addr.(editID := ReconstructedEditID(ops[i], dataStore, image.envelope.txID)))
  }

  lemma MatchesIff(header: TxHeader, ops: seq<TxOp>, dataStore: seq<byte>, image: TxImage)
    ensures Matches(header, ops, dataStore, image) <==>
      image == TxImage(image.envelope, header, Reconstructed(ops, dataStore, image.envelope.txID), dataStore)
  {
    hide ReconstructedEditID;
    if Matches(header, ops, dataStore, image) {
      assert image.ops == Reconstructed(ops, dataStore, image.envelope.txID);
    }
  }

  /** Without verification a wire opens to exactly what it carries, and only then. */
  lemma OpensIff(pb: Protobuf, crypto: CryptoProvider, wire: seq<byte>, signerKey: seq<byte>, image: TxImage)
    ensures Open(pb, crypto, wire, signerKey, false) == Ok(image) <==> Carries(pb, crypto, wire, image)
  {
    hide ReadPb, ReadPayload, Reconstructed, FromBigEndian, CheckSignature, Matches;
    forall header, ops, dataStore ensures Matches(header, ops, dataStore, image) <==>
      image == TxImage(image.envelope, header, Reconstructed(ops, dataStore, image.envelope.txID), dataStore) {
      MatchesIff(header, ops, dataStore, image);
    }
    if ReadEnvelope(pb, wire).Ok? {
      var (envelope, p) := ReadEnvelope(pb, wire).value;
      assert wire[16..HeadLen(wire)][p..] == wire[16 + p..HeadLen(wire)];
    }
  }

  /** The envelope can be read off any "AMP1" wire, whatever its declared lengths say. */
  lemma ParsesIff(pb: Protobuf, wire: seq<byte>, envelope: TxEnvelope)
    ensures ParseTxEnvelope(pb, wire) == Ok(envelope) <==>
      && |wire| >= 16 && wire[..4] == [0x41, 0x4D, 0x50, 0x31]
      && var read := ReadPb<TxEnvelope>(pb.unmarshalEnvelope, wire[16..], 0);
      && read.Ok? && read.value.0 == envelope
  {
    hide ReadPb;
  }

  // ---- open undoes seal ----

  /** Unmarshal undoes marshal on what this tx marshals. */
  predicate PbInverse(pb: Protobuf, envelope: TxEnvelope) {
    && |pb.marshalEnvelope(envelope)| < TWO_63
    && pb.unmarshalEnvelope(pb.marshalEnvelope(envelope)) == Some(envelope)
  }

  /** A signature has the declared size and verifies under the author's key. */
  ghost predicate SignVerifies(crypto: CryptoProvider, signerKey: seq<byte>) {
    && 0 < crypto.signatureSize < 0x1_0000
    && forall digest :: crypto.sign(digest).Some? ==>
         |crypto.sign(digest).value| == crypto.signatureSize
         && crypto.verify(crypto.sign(digest).value, digest, signerKey)
  }

  /** The member proof plays no part in the payload key: it is stamped after encryption. */
  ghost predicate DecryptInverts(crypto: CryptoProvider, tx: TxImage, plaintext: seq<byte>) {
    forall proof: seq<byte> :: crypto.encrypt(plaintext, tx.envelope).Some? ==>
      crypto.decrypt(crypto.encrypt(plaintext, tx.envelope).value, tx.envelope.(memberProof := proof)) == Some(plaintext)
  }

  ghost predicate Sealable(pb: Protobuf, crypto: CryptoProvider, tx: TxImage, signerKey: seq<byte>) {
    && Writable(pb, tx)
    && PbInverse(pb, SealedEnvelope(pb, crypto, tx))
    && SignVerifies(crypto, signerKey)
    && (!tx.envelope.IsPublic() ==> DecryptInverts(crypto, tx, Payload(pb, tx) + tx.dataStore))
  }

  lemma SliceOfDrop(s: seq<byte>, p: nat, a: nat, b: nat)
    requires a <= b && p + b <= |s|
    ensures s[p + a..p + b] == s[p..][a..b]
  {
  }

  /** The parts of a sealed wire, and what its preamble says about them. */
  lemma SealedParts(pb: Protobuf, crypto: CryptoProvider, tx: TxImage, reserved: seq<byte>, signerKey: seq<byte>)
    returns (envelope: seq<byte>, wirePayload: seq<byte>, store: seq<byte>, sig: seq<byte>)
    requires |reserved| == 2 && Sealable(pb, crypto, tx, signerKey)
    requires Seal(pb, crypto, tx, reserved).Ok?
    ensures var wire := Seal(pb, crypto, tx, reserved).value;
      && |sig| == crypto.signatureSize <= |wire| && PREAMBLE_SIZE <= |wire| - |sig|
      && SealedBody(pb, crypto, tx) == Ok((wirePayload, store))
      && envelope == WritePb(pb.marshalEnvelope(SealedEnvelope(pb, crypto, tx)))
      && SignedSpan(pb, crypto, tx, reserved) == Ok(wire[..|wire| - |sig|])
      && wire[|wire| - |sig|..] == sig
      && SignedDigest(crypto, wire[..|wire| - |sig|]).Ok?
      && crypto.verify(sig, SignedDigest(crypto, wire[..|wire| - |sig|]).value, signerKey)
      && wire[..4] == PREAMBLE_SIGNATURE
      && wire[PREAMBLE_SIZE..] == envelope + wirePayload + store + sig
      && HeadLen(wire) == PREAMBLE_SIZE + |envelope| + |wirePayload| && DataLen(wire) == |store|
      && TxSigOffset(wire) == Ok(|wire| - |sig|)
  {
    hide Payload, WritePb, SealedBody, SealedEnvelope, DecryptInverts, Writable, Preamble, HeadLen, DataLen, BigEndian, FromBigEndian;
    var wire := Seal(pb, crypto, tx, reserved).value;
    var body := SealedBody(pb, crypto, tx).value;
    wirePayload, store := body.0, body.1;
    envelope := WritePb(pb.marshalEnvelope(SealedEnvelope(pb, crypto, tx)));
    var signed := SignedSpan(pb, crypto, tx, reserved).value;
    var digest := SignedDigest(crypto, signed).value;
    sig := crypto.sign(digest).value;
    assert wire == signed + sig;
    TakePrefix(signed, sig);
    var headLen := PREAMBLE_SIZE + |envelope| + |wirePayload|;
    PreambleReads(headLen, |store|, crypto.signatureSize, reserved, envelope + wirePayload + store + sig);
    Associate(Preamble(headLen, |store|, crypto.signatureSize, reserved), envelope + wirePayload + store, sig);
  }

  lemma TailParts(tail: seq<byte>, envelope: seq<byte>, wirePayload: seq<byte>, store: seq<byte>, sig: seq<byte>)
    requires tail == envelope + wirePayload + store + sig
    ensures tail == envelope + (wirePayload + store + sig)
    ensures tail[0..|envelope| + |wirePayload|] == envelope + wirePayload
    ensures tail[0..|envelope| + |wirePayload|][|envelope|..] == wirePayload
    ensures tail[|envelope|..|envelope| + |wirePayload|] == wirePayload
    ensures tail[|envelope| + |wirePayload|..|envelope| + |wirePayload| + |store|] == store
  {
  }

  /** Opening the payload of a sealed wire, its parts and signature boundary known. */
  lemma PayloadOpens(pb: Protobuf, crypto: CryptoProvider, tx: TxImage, wire: seq<byte>,
                     envelope: seq<byte>, wirePayload: seq<byte>, store: seq<byte>, sig: seq<byte>)
    requires Writable(pb, tx) && Identified(tx)
    requires !tx.envelope.IsPublic() ==> DecryptInverts(crypto, tx, Payload(pb, tx) + tx.dataStore)
    requires SealedBody(pb, crypto, tx) == Ok((wirePayload, store))
    requires |wire| >= PREAMBLE_SIZE && wire[PREAMBLE_SIZE..] == envelope + wirePayload + store + sig
    requires HeadLen(wire) == PREAMBLE_SIZE + |envelope| + |wirePayload| && DataLen(wire) == |store|
    ensures OpenPayload(pb, crypto, wire, SealedEnvelope(pb, crypto, tx), |envelope|, |wire| - |sig|)
      == Ok(tx.(envelope := SealedEnvelope(pb, crypto, tx)))
  {
    hide Payload, HeadLen, DataLen, ReadPayload, Reconstructed, Identified, Writable;
    var sealed, tail := SealedEnvelope(pb, crypto, tx), wire[PREAMBLE_SIZE..];
    IdentityComesBack(tx);
    TailParts(tail, envelope, wirePayload, store, sig);
    if tx.envelope.IsPublic() {
      SliceOfDrop(wire, PREAMBLE_SIZE, 0, |envelope| + |wirePayload|);
      assert wire[PREAMBLE_SIZE..HeadLen(wire)][|envelope|..] == wirePayload == [] + wirePayload + [];
      PayloadRoundTrip(pb, tx, [], []);
      SliceOfDrop(wire, PREAMBLE_SIZE, |envelope| + |wirePayload|, |envelope| + |wirePayload| + |store|);
    } else {
      SliceOfDrop(wire, PREAMBLE_SIZE, |envelope|, |envelope| + |wirePayload|);
      var plaintext := [] + Payload(pb, tx) + tx.dataStore;
      assert plaintext == Payload(pb, tx) + tx.dataStore;
      var proof := crypto.memberProof(tx.envelope.txID.AppendTo([]), tx.envelope).value;
      assert crypto.decrypt(wirePayload, tx.envelope.(memberProof := proof)) == Some(plaintext);
      PayloadRoundTrip(pb, tx, [], tx.dataStore);
      assert plaintext[|Payload(pb, tx)|..] == tx.dataStore;
    }
  }

  /** Whatever the caller's scratch buffer held, opening a sealed TxMsg gives back its envelope
      (with the member proof a private one was given), header, data and ops, identities included.
      The envelope can be read without opening, and the signed span is exactly what precedes the
      signature. */
  lemma OpenUndoesSeal(pb: Protobuf, crypto: CryptoProvider, tx: TxImage, reserved: seq<byte>, signerKey: seq<byte>, verifySig: bool)
    requires |reserved| == 2 && Sealable(pb, crypto, tx, signerKey) && Identified(tx)
    requires Seal(pb, crypto, tx, reserved).Ok?
    ensures var wire, envelope := Seal(pb, crypto, tx, reserved).value, SealedEnvelope(pb, crypto, tx);
      && Open(pb, crypto, wire, signerKey, verifySig) == Ok(tx.(envelope := envelope))
      && ParseTxEnvelope(pb, wire) == Ok(envelope)
      && TxSigOffset(wire).Ok?
      && Ok(wire[..TxSigOffset(wire).value]) == SignedSpan(pb, crypto, tx, reserved)
  {
    hide Payload, WritePb, ReadPb, HeadLen, DataLen, SignedSpan, SignedDigest, Seal, TxSigOffset, OpenPayload, SealedEnvelope, SealedBody;
    var wire, sealed := Seal(pb, crypto, tx, reserved).value, SealedEnvelope(pb, crypto, tx);
    var envelope, wirePayload, store, sig := SealedParts(pb, crypto, tx, reserved, signerKey);
    var message := pb.marshalEnvelope(sealed);
    TailParts(wire[PREAMBLE_SIZE..], envelope, wirePayload, store, sig);
    LeadingPb(pb.unmarshalEnvelope, message, sealed, wirePayload + store + sig);
    SliceOfDrop(wire, PREAMBLE_SIZE, 0, |envelope| + |wirePayload|);
    LeadingPb(pb.unmarshalEnvelope, message, sealed, wirePayload);
    PayloadOpens(pb, crypto, tx, wire, envelope, wirePayload, store, sig);
  }

  /** A provider that keeps its interface: nothing is encrypted, decrypted or proved for a public envelope. */
  ghost predicate QuietOnPublic(crypto: CryptoProvider) {
    forall e: TxEnvelope, input: seq<byte> | e.IsPublic() ::
      crypto.encrypt(input, e) == Some([]) && crypto.decrypt(input, e) == Some([]) && crypto.memberProof(input, e) == Some([])
  }

  /** The hypotheses can be met: any tx of moderate size, public or private, has such a provider that seals it. */
  lemma SealableIsMet(tx: TxImage, reserved: seq<byte>)
    requires |reserved| == 2 && ByteFlags(tx.ops)
    requires |EncodeOps(ZERO_SLOTS, PlainOps(tx.ops))| + |tx.dataStore| < 0x8000_0000
    ensures exists pb: Protobuf, crypto: CryptoProvider ::
      QuietOnPublic(crypto) && Sealable(pb, crypto, tx, []) && Seal(pb, crypto, tx, reserved).Ok?
  {
    hide EncodeOps, WritePb, Payload, BigEndian, Framed, PlainOps, Preamble;
    var sealed := if tx.envelope.IsPublic() then tx.envelope else tx.envelope.(memberProof := []);
    var pb := Protobuf(e => [0], b => Some(sealed), h => [1], b => Some(tx.header));
    var crypto := CryptoProvider(1, parts => Some([]), digest => Some([7]), (sig, digest, key) => true,
                                 (plain, e: TxEnvelope) => if e.IsPublic() then Some([]) else Some(plain),
                                 (cipher, e: TxEnvelope) => if e.IsPublic() then Some([]) else Some(cipher),
                                 (input, e) => Some([]));
    assert SealedEnvelope(pb, crypto, tx) == sealed;
    PbLength([0]);
    PbLength([1]);
    PayloadLength(pb, tx);
    assert Seal(pb, crypto, tx, reserved).Ok?;
    assert QuietOnPublic(crypto) && Sealable(pb, crypto, tx, []);
  }

  lemma PbLength(message: seq<byte>)
    requires |message| < TWO_63
    ensures |WritePb(message)| <= 10 + |message|
  {
    Uvarint.RoundTrip(|message|, []);
  }

  lemma PayloadLength(pb: Protobuf, tx: TxImage)
    ensures |Payload(pb, tx)| == |WritePb(pb.marshalHeader(tx.header))| + 4 + |EncodeOps(ZERO_SLOTS, PlainOps(tx.ops))|
  {
  }
}
