/** The delta-compressed ops section of a TxMsg: sixteen u64 slots carried from op to op, a mask of
    the slots that changed, and uvarints for the rest. */
module TxOps {
  import opened Bytes
  import opened Uids
  import Uvarint

  const MAX_FIELDS := 16
  const USED_FIELDS := 6

  datatype Address = Address(nodeID: UID, attrID: UID, itemID: UID, editID: UID)

  datatype TxOp = TxOp(addr: Address, flags: nat, logical: u64, dataOfs: u64, dataLen: u64)

  datatype WireError =
    | Malformed
    | Panics    // the cursor goes negative and the next slice is out of range
    | MovesBack // the cursor goes back into the span; what is read from there is not modelled

  type Slots = s: seq<u64> | |s| == MAX_FIELDS witness [0, 0, 0, 0, 0, 0, 0, 0, 0, 0, 0, 0, 0, 0, 0, 0]

  const ZERO_SLOTS: Slots := [0, 0, 0, 0, 0, 0, 0, 0, 0, 0, 0, 0, 0, 0, 0, 0]

  /** One op as any writer of this format may emit it: with reserved bytes to skip, and with values
      in the reserved slots 6 to 15. */
  datatype WireOp = WireOp(op: TxOp, skip: seq<byte>, slots: Slots)

  ghost predicate ValidWireOp(w: WireOp) {
    w.op.flags < 256 && |w.skip| < TWO_63 && w.slots == OpSlots(w.op, w.slots)
  }

  /** The slots with the op's address in the used ones. */
  function OpSlots(op: TxOp, slots: Slots): Slots {
    [op.addr.itemID.hi, op.addr.itemID.lo, op.addr.attrID.hi, op.addr.attrID.lo,
     op.addr.nodeID.hi, op.addr.nodeID.lo] + slots[USED_FIELDS..]
  }

  function OpFromSlots(slots: Slots, flags: nat, logical: u64, dataOfs: u64, dataLen: u64): TxOp {
    TxOp(Address(UID(slots[4], slots[5]), UID(slots[2], slots[3]), UID(slots[0], slots[1]), NIL),
         flags, logical, dataOfs, dataLen)
  }

  /** What rides the wire: the op without its EditID. */
  function Stripped(op: TxOp): TxOp {
    op.(addr := op.addr.(editID := NIL))
  }

  // ---- the field mask ----

  function Mask(changed: seq<bool>): nat {
    if changed == [] then 0 else (if changed[0] then 1 else 0) + 2 * Mask(changed[1..])
  }

  predicate HasBit(mask: nat, j: nat) {
    if j == 0 then mask % 2 == 1 else HasBit(mask / 2, j - 1)
  }

  lemma {:induction false} MaskBit(changed: seq<bool>, j: nat)
    requires j < |changed|
    ensures HasBit(Mask(changed), j) == changed[j]
  {
    if j > 0 {
      assert Mask(changed) / 2 == Mask(changed[1..]);
      MaskBit(changed[1..], j - 1);
    }
  }

  lemma {:induction false} MaskBound(changed: seq<bool>, top: nat)
    requires top <= |changed| && forall j | top <= j < |changed| :: !changed[j]
    ensures Mask(changed) < Pow2(top)
  {
    if changed != [] {
      MaskBound(changed[1..], if top == 0 then 0 else top - 1);
    }
  }

  /** Setting bit i adds 2^i. */
  lemma {:induction false} MaskExtend(changed: seq<bool>, bit: bool)
    ensures Mask(changed + [bit]) == Mask(changed) + (if bit then Pow2(|changed|) else 0)
  {
    if changed == [] {
      assert changed + [bit] == [bit];
    } else {
      assert (changed + [bit])[1..] == changed[1..] + [bit];
      MaskExtend(changed[1..], bit);
    }
  }

  function Changed(cur: Slots, prv: Slots): (changed: seq<bool>)
    ensures |changed| == MAX_FIELDS
  {
    seq(MAX_FIELDS, i requires 0 <= i < MAX_FIELDS => cur[i] != prv[i])
  }

  // ---- the encoded form ----

  /** What slot i puts on the wire: nothing when it repeats. */
  function Field(cur: Slots, prv: Slots, i: nat): seq<byte>
    requires i < MAX_FIELDS
  {
    if cur[i] != prv[i] then BigEndian(cur[i], 8) else []
  }

  /** The changed slots among the first n, in slot order. */
  function Fields(cur: Slots, prv: Slots, n: nat): seq<byte>
    requires n <= MAX_FIELDS
  {
    if n == 0 then []
    else Fields(cur, prv, n - 1) + Field(cur, prv, n - 1)
  }

  function EncodeOp(prv: Slots, w: WireOp): seq<byte> {
    [w.op.flags % 256] +
    (Uvarint.Put(w.op.logical) +
    (Uvarint.Put(w.op.dataOfs) +
    (Uvarint.Put(w.op.dataLen) +
    (Uvarint.Put(|w.skip|) + (w.skip +
    (Uvarint.Put(Mask(Changed(w.slots, prv))) +
     Fields(w.slots, prv, MAX_FIELDS)))))))
  }

  function EncodeOps(prv: Slots, ws: seq<WireOp>): seq<byte>
    decreases |ws|
  {
    if ws == [] then [] else EncodeOp(prv, ws[0]) + EncodeOps(ws[0].slots, ws[1..])
  }

  /** The writer's own use of the format: nothing to skip, reserved slots zero. */
  function Plain(op: TxOp): WireOp {
    WireOp(op, [], OpSlots(op, ZERO_SLOTS))
  }

  function PlainOps(ops: seq<TxOp>): (ws: seq<WireOp>)
    ensures |ws| == |ops|
  {
    seq(|ops|, i requires 0 <= i < |ops| => Plain(ops[i]))
  }

  // ---- the parser, as a function of the unread bytes ----

  function ReadVarint(src: seq<byte>): (r: Option<(u64, seq<byte>)>)
    ensures r.Some? ==> |r.value.1| < |src|
  {
    Uvarint.GetBound(src);
    match Uvarint.Get(src)
    case None => None
    case Some((value, width)) => Some((value, src[width..]))
  }

  /** Reads the masked slots from slot j on, over the current ones. */
  function ReadFields(mask: nat, j: nat, cur: Slots, src: seq<byte>): (r: Option<(Slots, seq<byte>)>)
    requires j <= MAX_FIELDS
    ensures r.Some? ==> |r.value.1| <= |src|
    decreases MAX_FIELDS - j
  {
    if j == MAX_FIELDS then Some((cur, src))
    else if !HasBit(mask, j) then ReadFields(mask, j + 1, cur, src)
    else if |src| < 8 then None
    else
      FromBigEndian8(src[..8]);
      ReadFields(mask, j + 1, cur[j := FromBigEndian(src[..8])], src[8..])
  }

  datatype Read = Read(op: TxOp, cur: Slots, rest: seq<byte>)

  /** What `p += n + int(skip)` comes to when the skip exceeds what is left after position p. */
  function SkipFault(p: nat, skip: u64): WireError {
    if p + skip < TWO_63 then Malformed else if p + skip < TWO_64 then Panics else MovesBack
  }

  /** The cursor advances within the span exactly when the skip is no more than what is left.  Otherwise it passes the
      end, goes negative, or moves back, by where the sum wraps. */
  lemma SkipOutcomes(len: nat, p: nat, skip: u64)
    requires p <= len < TWO_63
    ensures var next := Wrap64(p + ToInt64(skip));
      && (p <= next <= len <==> skip <= len - p)
      && (skip <= len - p ==> next == p + skip)
      && (skip > len - p ==> (SkipFault(p, skip) == Malformed <==> next > len))
      && (skip > len - p ==> (SkipFault(p, skip) == Panics <==> next < 0))
      && (skip > len - p ==> (SkipFault(p, skip) == MovesBack <==> 0 <= next < p))
  {
  }

  /** One op off the front of src, the last |src| bytes of a span of len. */
  function ReadOp(len: nat, cur: Slots, src: seq<byte>): (r: Result<Read, WireError>)
    requires 0 < |src| <= len
    ensures r.Ok? ==> |r.value.rest| < |src|
  {
    var logical := ReadVarint(src[1..]);
    if logical.None? then Err(Malformed) else
    var dataOfs := ReadVarint(logical.value.1);
    if dataOfs.None? then Err(Malformed) else
    var dataLen := ReadVarint(dataOfs.value.1);
    if dataLen.None? then Err(Malformed) else
    var skip := ReadVarint(dataLen.value.1);
    if skip.None? then Err(Malformed) else
    if skip.value.0 > |skip.value.1| then Err(SkipFault(len - |skip.value.1|, skip.value.0)) else
    var mask := ReadVarint(skip.value.1[skip.value.0..]);
    if mask.None? then Err(Malformed) else
    var fields := ReadFields(mask.value.0, 0, cur, mask.value.1);
    if fields.None? then Err(Malformed) else
    var slots := fields.value.0;
    Ok(Read(OpFromSlots(slots, src[0], logical.value.0, dataOfs.value.0, dataLen.value.0), slots, fields.value.1))
  }

  function ReadAll(len: nat, cur: Slots, src: seq<byte>): (r: Result<seq<TxOp>, WireError>)
    requires |src| <= len
    decreases |src|
  {
    if src == [] then Ok([]) else
    match ReadOp(len, cur, src)
    case Err(e) => Err(e)
    case Ok(Read(op, slots, rest)) =>
      match ReadAll(len, slots, rest)
      case Err(e) => Err(e)
      case Ok(ops) => Ok([op] + ops)
  }

  // ---- the parser inverts the printer ----

  lemma ReadVarintPut(x: u64, rest: seq<byte>)
    ensures ReadVarint(Uvarint.Put(x) + rest) == Some((x, rest))
  {
    Uvarint.RoundTrip(x, rest);
  }

  /** Slots below j from cur, the others still from prv. */
  function Mixed(cur: Slots, prv: Slots, j: nat): Slots
    requires j <= MAX_FIELDS
  {
    cur[..j] + prv[j..]
  }

  function FieldsFrom(cur: Slots, prv: Slots, j: nat): seq<byte>
    requires j <= MAX_FIELDS
    decreases MAX_FIELDS - j
  {
    if j == MAX_FIELDS then []
    else Field(cur, prv, j) + FieldsFrom(cur, prv, j + 1)
  }

  lemma {:induction false} FieldsSplit(cur: Slots, prv: Slots, j: nat)
    requires j <= MAX_FIELDS
    ensures Fields(cur, prv, MAX_FIELDS) == Fields(cur, prv, j) + FieldsFrom(cur, prv, j)
    decreases MAX_FIELDS - j
  {
    hide Field;
    if j < MAX_FIELDS {
      FieldsSplit(cur, prv, j + 1);
      Associate(Fields(cur, prv, j), Field(cur, prv, j), FieldsFrom(cur, prv, j + 1));
    }
  }

  lemma {:induction false} ReadFieldsInverse(cur: Slots, prv: Slots, j: nat, rest: seq<byte>)
    requires j <= MAX_FIELDS
    ensures ReadFields(Mask(Changed(cur, prv)), j, Mixed(cur, prv, j), FieldsFrom(cur, prv, j) + rest) == Some((cur, rest))
    decreases MAX_FIELDS - j
  {
    hide Mask, HasBit, BigEndian, FromBigEndian;
    if j == MAX_FIELDS {
      assert Mixed(cur, prv, j) == cur && FieldsFrom(cur, prv, j) + rest == rest;
    } else {
      var tail := FieldsFrom(cur, prv, j + 1) + rest;
      MaskBit(Changed(cur, prv), j);
      ReadFieldsInverse(cur, prv, j + 1, rest);
      Associate(Field(cur, prv, j), FieldsFrom(cur, prv, j + 1), rest);
      assert FieldsFrom(cur, prv, j) + rest == Field(cur, prv, j) + tail;
      assert Mixed(cur, prv, j)[j := cur[j]] == Mixed(cur, prv, j + 1);
      if cur[j] != prv[j] {
        BigEndianRoundTrip(cur[j], 8);
        TakePrefix(Field(cur, prv, j), tail);
      } else {
        assert Mixed(cur, prv, j) == Mixed(cur, prv, j + 1);
        assert [] + tail == tail;
      }
    }
  }

  lemma TakePrefix(a: seq<byte>, b: seq<byte>)
    ensures (a + b)[..|a|] == a && (a + b)[|a|..] == b
  {
  }

  lemma MaskFits(cur: Slots, prv: Slots)
    ensures Mask(Changed(cur, prv)) < TWO_64
  {
    MaskBound(Changed(cur, prv), MAX_FIELDS);
    Pow2Sum(16, 48);
    Pow2Values();
    assert Pow2(48) >= 1;
    MulMonotone(1, Pow2(48), Pow2(16));
  }

  /** One op, read back with the writer's slots, whatever bytes follow. */
  lemma ReadOpInverse(len: nat, prv: Slots, w: WireOp, rest: seq<byte>)
    requires ValidWireOp(w) && |EncodeOp(prv, w) + rest| <= len
    ensures EncodeOp(prv, w) + rest != []
    ensures ReadOp(len, prv, EncodeOp(prv, w) + rest) == Ok(Read(Stripped(w.op), w.slots, rest))
  {
    hide HasBit, Mask, ReadFields, ReadVarint, Fields, FieldsFrom, EncodeOp, OpFromSlots;
    var mask := Mask(Changed(w.slots, prv));
    MaskFits(w.slots, prv);
    var fields := Fields(w.slots, prv, MAX_FIELDS) + rest;
    var afterSkip := Uvarint.Put(mask) + fields;
    var skipped := w.skip + afterSkip;
    var atSkip := Uvarint.Put(|w.skip|) + skipped;
    var atLen := Uvarint.Put(w.op.dataLen) + atSkip;
    var atOfs := Uvarint.Put(w.op.dataOfs) + atLen;
    var atLogical := Uvarint.Put(w.op.logical) + atOfs;
    var src := EncodeOp(prv, w) + rest;
    Reassociate(prv, w, rest);
    TakePrefix([w.op.flags], atLogical);
    TakePrefix(w.skip, afterSkip);
    SlotsDecode(w);
    ReadVarintPut(w.op.logical, atOfs);
    ReadVarintPut(w.op.dataOfs, atLen);
    ReadVarintPut(w.op.dataLen, atSkip);
    ReadVarintPut(|w.skip|, skipped);
    ReadVarintPut(mask, fields);
    FieldsSplit(w.slots, prv, 0);
    assert Fields(w.slots, prv, 0) == [] by { NoFields(w.slots, prv); }
    assert Mixed(w.slots, prv, 0) == prv;
    assert fields == FieldsFrom(w.slots, prv, 0) + rest;
    ReadFieldsInverse(w.slots, prv, 0, rest);
  }

  /** A skip that exceeds what is left is judged by where the cursor stands behind it. */
  lemma SkipIsJudged(len: nat, cur: Slots, skip: u64, rest: seq<byte>)
    requires skip > |rest|
    ensures var src := [0] + (Uvarint.Put(0) + (Uvarint.Put(0) + (Uvarint.Put(0) + (Uvarint.Put(skip) + rest))));
      src != [] && (|src| <= len ==> ReadOp(len, cur, src) == Err(SkipFault(len - |rest|, skip)))
  {
    hide ReadVarint;
    var zero, last := Uvarint.Put(0), Uvarint.Put(skip) + rest;
    var src := [0] + (zero + (zero + (zero + last)));
    assert src[1..] == zero + (zero + (zero + last));
    ReadVarintPut(0, zero + (zero + last));
    ReadVarintPut(0, zero + last);
    ReadVarintPut(0, last);
    ReadVarintPut(skip, rest);
  }

  /** An op cut off right after its skip: each of the three faults happens on some input. */
  lemma SkipFaultsHappen(cur: Slots, skip: u64)
    requires skip > 0
    ensures var src := [0] + (Uvarint.Put(0) + (Uvarint.Put(0) + (Uvarint.Put(0) + Uvarint.Put(skip))));
      && src != [] && ReadOp(|src|, cur, src) == Err(SkipFault(|src|, skip))
      && SkipFault(|src|, 1) == Malformed && SkipFault(|src|, TWO_63 - 1) == Panics && SkipFault(|src|, TWO_64 - 1) == MovesBack
  {
    var src := [0] + (Uvarint.Put(0) + (Uvarint.Put(0) + (Uvarint.Put(0) + Uvarint.Put(skip))));
    assert Uvarint.Put(skip) + [] == Uvarint.Put(skip);
    SkipIsJudged(|src|, cur, skip, []);
    Uvarint.RoundTrip(0, []);
    Uvarint.RoundTrip(skip, []);
  }

  lemma SlotsDecode(w: WireOp)
    requires ValidWireOp(w)
    ensures OpFromSlots(w.slots, w.op.flags, w.op.logical, w.op.dataOfs, w.op.dataLen) == Stripped(w.op)
  {
  }

  lemma NoFields(cur: Slots, prv: Slots)
    ensures Fields(cur, prv, 0) == []
  {
  }

  lemma Reassociate(prv: Slots, w: WireOp, rest: seq<byte>)
    requires w.op.flags < 256
    ensures EncodeOp(prv, w) + rest ==
      [w.op.flags] + (Uvarint.Put(w.op.logical) + (Uvarint.Put(w.op.dataOfs) + (Uvarint.Put(w.op.dataLen)
      + (Uvarint.Put(|w.skip|) + (w.skip + (Uvarint.Put(Mask(Changed(w.slots, prv))) + (Fields(w.slots, prv, MAX_FIELDS) + rest)))))))
  {
    hide Fields, Mask, Uvarint.Put;
  }

  function Ops(ws: seq<WireOp>): (ops: seq<TxOp>)
    ensures |ops| == |ws|
  {
    seq(|ws|, i requires 0 <= i < |ws| => Stripped(ws[i].op))
  }

  /** Whatever slots the parser starts from, it recovers every op of any writer of the format,
      reserved bytes and reserved slots included, and consumes the span exactly. */
  lemma {:induction false} ReadAllInverse(len: nat, prv: Slots, ws: seq<WireOp>)
    requires (forall w | w in ws :: ValidWireOp(w)) && |EncodeOps(prv, ws)| <= len
    ensures ReadAll(len, prv, EncodeOps(prv, ws)) == Ok(Ops(ws))
    decreases |ws|
  {
    hide EncodeOp, ReadOp;
    if ws != [] {
      ReadOpInverse(len, prv, ws[0], EncodeOps(ws[0].slots, ws[1..]));
      ReadAllInverse(len, ws[0].slots, ws[1..]);
      assert Ops(ws) == [Stripped(ws[0].op)] + Ops(ws[1..]);
    }
  }

  function StrippedOps(ops: seq<TxOp>): (stripped: seq<TxOp>)
    ensures |stripped| == |ops|
  {
    seq(|ops|, i requires 0 <= i < |ops| => Stripped(ops[i]))
  }

  predicate ByteFlags(ops: seq<TxOp>) {
    forall op | op in ops :: op.flags < 256
  }

  /** readOps inverts appendOps. */
  lemma PlainRoundTrip(ops: seq<TxOp>)
    requires ByteFlags(ops)
    ensures var src := EncodeOps(ZERO_SLOTS, PlainOps(ops));
      ReadAll(|src|, ZERO_SLOTS, src) == Ok(StrippedOps(ops))
  {
    ReadAllInverse(|EncodeOps(ZERO_SLOTS, PlainOps(ops))|, ZERO_SLOTS, PlainOps(ops));
    assert Ops(PlainOps(ops)) == StrippedOps(ops);
  }

  // ---- size ----

  lemma {:induction false} FieldsLength(cur: Slots, prv: Slots, n: nat)
    requires n <= MAX_FIELDS && cur[USED_FIELDS..] == prv[USED_FIELDS..]
    ensures |Fields(cur, prv, n)| <= 8 * Min(n, USED_FIELDS)
  {
    if n > 0 {
      FieldsLength(cur, prv, n - 1);
      if n > USED_FIELDS {
        assert cur[n - 1] == cur[USED_FIELDS..][n - 1 - USED_FIELDS] == prv[n - 1];
      }
    }
  }

  /** One op of the writer's takes at most 81 bytes, whatever came before it. */
  lemma PlainOpSize(prv: Slots, op: TxOp)
    requires prv[USED_FIELDS..] == ZERO_SLOTS[USED_FIELDS..]
    ensures |EncodeOp(prv, Plain(op))| <= 81
  {
    hide Mask, Fields;
    var cur := Plain(op).slots;
    assert cur[USED_FIELDS..] == prv[USED_FIELDS..];
    FieldsLength(cur, prv, MAX_FIELDS);
    var changed := Changed(cur, prv);
    forall j | USED_FIELDS <= j < MAX_FIELDS ensures !changed[j] {
      assert cur[j] == cur[USED_FIELDS..][j - USED_FIELDS] == prv[j];
    }
    MaskBound(changed, USED_FIELDS);
    assert Pow2(6) == 64;
    Uvarint.RoundTrip(op.logical, []);
    Uvarint.RoundTrip(op.dataOfs, []);
    Uvarint.RoundTrip(op.dataLen, []);
  }

  lemma {:induction false} PlainSize(prv: Slots, ops: seq<TxOp>)
    requires prv[USED_FIELDS..] == ZERO_SLOTS[USED_FIELDS..]
    ensures |EncodeOps(prv, PlainOps(ops))| <= 81 * |ops|
    decreases |ops|
  {
    if ops != [] {
      PlainOpSize(prv, ops[0]);
      assert PlainOps(ops)[1..] == PlainOps(ops[1..]);
      PlainSize(Plain(ops[0]).slots, ops[1..]);
    }
  }

  // ---- the layout ----

  /** A value that repeats its predecessor's is left out. */
  ghost function Half(before: u64, v: u64): seq<byte> {
    if v == before then [] else BigEndian(v, 8)
  }

  ghost function Bit(before: u64, v: u64, weight: nat): nat {
    if v == before then 0 else weight
  }

  /** The writer's op, laid out: flags, the three varints, nothing to skip, the mask, then in the order of the mask bits
      those halves of item, attribute and node that differ from the op before. */
  lemma OpBytes(before: TxOp, op: TxOp)
    requires op.flags < 256
    ensures var a, b := before.addr, op.addr;
      var mask := Bit(a.itemID.hi, b.itemID.hi, 1) + Bit(a.itemID.lo, b.itemID.lo, 2)
                + Bit(a.attrID.hi, b.attrID.hi, 4) + Bit(a.attrID.lo, b.attrID.lo, 8)
                + Bit(a.nodeID.hi, b.nodeID.hi, 16) + Bit(a.nodeID.lo, b.nodeID.lo, 32);
      EncodeOp(Plain(before).slots, Plain(op)) ==
        [op.flags] + Uvarint.Put(op.logical) + Uvarint.Put(op.dataOfs) + Uvarint.Put(op.dataLen) + [0, mask]
        + Half(a.itemID.hi, b.itemID.hi) + Half(a.itemID.lo, b.itemID.lo)
        + Half(a.attrID.hi, b.attrID.hi) + Half(a.attrID.lo, b.attrID.lo)
        + Half(a.nodeID.hi, b.nodeID.hi) + Half(a.nodeID.lo, b.nodeID.lo)
  {
    hide Half, Fields, Mask, Bit, Changed, OpSlots;
    var prv, cur := Plain(before).slots, Plain(op).slots;
    SlotHalves(op);
    SlotHalves(before);
    MaskOfSix(cur, prv);
    FieldsOfSix(cur, prv);
    var mask := Mask(Changed(cur, prv));
    BitsFit(before.addr, op.addr);
    assert Uvarint.Put(0) == [0] && Uvarint.Put(mask) == [mask];
    hide Uvarint.Put;
    var a, b := before.addr, op.addr;
    LaidOut([op.flags], Uvarint.Put(op.logical), Uvarint.Put(op.dataOfs), Uvarint.Put(op.dataLen), mask,
            Half(a.itemID.hi, b.itemID.hi), Half(a.itemID.lo, b.itemID.lo), Half(a.attrID.hi, b.attrID.hi),
            Half(a.attrID.lo, b.attrID.lo), Half(a.nodeID.hi, b.nodeID.hi), Half(a.nodeID.lo, b.nodeID.lo));
  }

  lemma BitsFit(a: Address, b: Address)
    ensures Bit(a.itemID.hi, b.itemID.hi, 1) + Bit(a.itemID.lo, b.itemID.lo, 2)
          + Bit(a.attrID.hi, b.attrID.hi, 4) + Bit(a.attrID.lo, b.attrID.lo, 8)
          + Bit(a.nodeID.hi, b.nodeID.hi, 16) + Bit(a.nodeID.lo, b.nodeID.lo, 32) < 64
  {
  }

  lemma LaidOut(flags: seq<byte>, logical: seq<byte>, dataOfs: seq<byte>, dataLen: seq<byte>, mask: byte, f0: seq<byte>,
                f1: seq<byte>, f2: seq<byte>, f3: seq<byte>, f4: seq<byte>, f5: seq<byte>)
    ensures flags + (logical + (dataOfs + (dataLen + ([0] + ([] + ([mask] + (f0 + f1 + f2 + f3 + f4 + f5)))))))
      == flags + logical + dataOfs + dataLen + [0, mask] + f0 + f1 + f2 + f3 + f4 + f5
  {
    var fields := f0 + f1 + f2 + f3 + f4 + f5;
    assert [0] + ([] + ([mask] + fields)) == [0, mask] + fields;
    var head := flags + logical + dataOfs + dataLen;
    assert flags + (logical + (dataOfs + (dataLen + ([0, mask] + fields)))) == head + ([0, mask] + fields);
    assert head + ([0, mask] + fields) == head + [0, mask] + f0 + f1 + f2 + f3 + f4 + f5;
  }

  lemma SlotHalves(op: TxOp)
    ensures var slots, addr := Plain(op).slots, op.addr;
      && slots[0] == addr.itemID.hi && slots[1] == addr.itemID.lo && slots[2] == addr.attrID.hi && slots[3] == addr.attrID.lo
      && slots[4] == addr.nodeID.hi && slots[5] == addr.nodeID.lo && slots[6..] == ZERO_SLOTS[6..]
  {
  }

  lemma MaskOfSix(cur: Slots, prv: Slots)
    requires cur[6..] == prv[6..]
    ensures Mask(Changed(cur, prv)) ==
      Bit(prv[0], cur[0], 1) + Bit(prv[1], cur[1], 2) + Bit(prv[2], cur[2], 4)
      + Bit(prv[3], cur[3], 8) + Bit(prv[4], cur[4], 16) + Bit(prv[5], cur[5], 32)
  {
    var changed := Changed(cur, prv);
    forall j | 6 <= j < MAX_FIELDS ensures !changed[j] {
      assert cur[j] == cur[6..][j - 6] == prv[j];
    }
    MaskOfBits(changed);
  }

  lemma MaskOfBits(changed: seq<bool>)
    requires |changed| == MAX_FIELDS && forall j | 6 <= j < MAX_FIELDS :: !changed[j]
    ensures Mask(changed) ==
      (if changed[0] then 1 else 0) + (if changed[1] then 2 else 0) + (if changed[2] then 4 else 0)
      + (if changed[3] then 8 else 0) + (if changed[4] then 16 else 0) + (if changed[5] then 32 else 0)
  {
    MaskBound(changed[6..], 0);
    assert Mask(changed[5..]) == (if changed[5] then 1 else 0);
    assert Mask(changed[4..]) == (if changed[4] then 1 else 0) + 2 * Mask(changed[5..]);
    assert Mask(changed[3..]) == (if changed[3] then 1 else 0) + 2 * Mask(changed[4..]);
    assert Mask(changed[2..]) == (if changed[2] then 1 else 0) + 2 * Mask(changed[3..]);
    assert Mask(changed[1..]) == (if changed[1] then 1 else 0) + 2 * Mask(changed[2..]);
  }

  lemma FieldsOfSix(cur: Slots, prv: Slots)
    requires cur[6..] == prv[6..]
    ensures Fields(cur, prv, MAX_FIELDS) ==
      Half(prv[0], cur[0]) + Half(prv[1], cur[1]) + Half(prv[2], cur[2]) + Half(prv[3], cur[3]) + Half(prv[4], cur[4]) + Half(prv[5], cur[5])
  {
    forall j | 6 <= j < MAX_FIELDS ensures Field(cur, prv, j) == [] {
      assert cur[j] == cur[6..][j - 6] == prv[j];
    }
    forall j | 0 <= j < MAX_FIELDS ensures Field(cur, prv, j) == Half(prv[j], cur[j]) {
    }
    NoFields(cur, prv);
    QuietFields(cur, prv, MAX_FIELDS);
    hide Field, Half;
    assert Fields(cur, prv, 1) == Half(prv[0], cur[0]);
    assert Fields(cur, prv, 2) == Fields(cur, prv, 1) + Half(prv[1], cur[1]);
    assert Fields(cur, prv, 3) == Fields(cur, prv, 2) + Half(prv[2], cur[2]);
    assert Fields(cur, prv, 4) == Fields(cur, prv, 3) + Half(prv[3], cur[3]);
    assert Fields(cur, prv, 5) == Fields(cur, prv, 4) + Half(prv[4], cur[4]);
    assert Fields(cur, prv, 6) == Fields(cur, prv, 5) + Half(prv[5], cur[5]);
  }

  lemma {:induction false} QuietFields(cur: Slots, prv: Slots, n: nat)
    requires 6 <= n <= MAX_FIELDS && forall j | 6 <= j < MAX_FIELDS :: Field(cur, prv, j) == []
    ensures Fields(cur, prv, n) == Fields(cur, prv, 6)
  {
    hide Field;
    if n > 6 {
      QuietFields(cur, prv, n - 1);
    }
  }

  // ---- the writer and reader themselves ----

  /** The ops section: a u32 byte length, then the ops. */
  function OpsSection(ops: seq<TxOp>): seq<byte> {
    var body := EncodeOps(ZERO_SLOTS, PlainOps(ops));
    BigEndian(|body|, 4) + body
  }

  lemma DropDrop(src: seq<byte>, p: nat, n: nat)
    requires p + n <= |src|
    ensures src[p..][n..] == src[p + n..]
  {
  }

  /** Appends the change mask, then the changed slots. */
  method AppendFields(dst: seq<byte>, cur: Slots, prv: Slots) returns (out: seq<byte>)
    ensures out == dst + (Uvarint.Put(Mask(Changed(cur, prv))) + Fields(cur, prv, MAX_FIELDS))
  {
    hide Mask, Field, Uvarint.Put;
    var changed := Changed(cur, prv);
    var hasFields := 0;
    assert Mask(changed[..0]) == 0 by { EmptyMask(changed); }
    for i := 0 to MAX_FIELDS
      invariant hasFields == Mask(changed[..i])
    {
      assert changed[..i + 1] == changed[..i] + [cur[i] != prv[i]];
      MaskExtend(changed[..i], cur[i] != prv[i]);
      if cur[i] != prv[i] {
        hasFields := hasFields + Pow2(i);
      }
    }
    assert changed[..MAX_FIELDS] == changed;
    out := dst + Uvarint.Put(hasFields);
    ghost var start := out;
    for i := 0 to MAX_FIELDS
      invariant out == start + Fields(cur, prv, i)
    {
      MaskBit(changed, i);
      AppendField(start, cur, prv, i);
      if HasBit(hasFields, i) {
        out := out + BigEndian(cur[i], 8);
      }
    }
    Associate(dst, Uvarint.Put(hasFields), Fields(cur, prv, MAX_FIELDS));
  }

  lemma EmptyMask(changed: seq<bool>)
    ensures Mask(changed[..0]) == 0
  {
  }

  lemma AppendField(start: seq<byte>, cur: Slots, prv: Slots, i: nat)
    requires i < MAX_FIELDS
    ensures start + Fields(cur, prv, i + 1)
      == if cur[i] != prv[i] then (start + Fields(cur, prv, i)) + BigEndian(cur[i], 8) else start + Fields(cur, prv, i)
  {
    Associate(start, Fields(cur, prv, i), Field(cur, prv, i));
    assert (start + Fields(cur, prv, i)) + [] == start + Fields(cur, prv, i);
  }

  method AppendOps(dst: seq<byte>, ops: seq<TxOp>) returns (out: seq<byte>)
    ensures out == dst + OpsSection(ops)
  {
    hide EncodeOp, Fields, Mask, Uvarint.Put, OpSlots;
    var lenOfs := |dst|;
    out := dst + [0, 0, 0, 0];
    var prv, cur := ZERO_SLOTS, ZERO_SLOTS;
    ghost var body := [];
    assert ops[0..] == ops;
    for k := 0 to |ops|
      invariant out == (dst + [0, 0, 0, 0]) + body
      invariant cur == prv && cur[USED_FIELDS..] == ZERO_SLOTS[USED_FIELDS..]
      invariant body + EncodeOps(prv, PlainOps(ops[k..])) == EncodeOps(ZERO_SLOTS, PlainOps(ops))
    {
      var op := ops[k];
      out := out + [op.flags % 256];
      out := out + Uvarint.Put(op.logical);
      out := out + Uvarint.Put(op.dataOfs);
      out := out + Uvarint.Put(op.dataLen);
      out := out + Uvarint.Put(0);
      cur := OpSlots(op, cur);
      PlainSlots(op, prv);
      out := AppendFields(out, cur, prv);
      OpAppended((dst + [0, 0, 0, 0]) + body, prv, op);
      Associate(dst + [0, 0, 0, 0], body, EncodeOp(prv, Plain(op)));
      NextOp(prv, ops, k, body);
      body := body + EncodeOp(prv, Plain(op));
      prv := cur;
    }
    assert PlainOps(ops[|ops|..]) == [];
    assert body + [] == body;
    Backfilled(dst, [0, 0, 0, 0], body, BigEndian(|body|, 4));
    out := out[..lenOfs] + BigEndian(|out| - lenOfs - 4, 4) + out[lenOfs + 4..];
  }

  lemma PlainSlots(op: TxOp, prv: Slots)
    requires prv[USED_FIELDS..] == ZERO_SLOTS[USED_FIELDS..]
    ensures OpSlots(op, prv) == Plain(op).slots
    ensures OpSlots(op, prv)[USED_FIELDS..] == ZERO_SLOTS[USED_FIELDS..]
  {
  }

  /** The writer's pieces, appended one by one, are the op's encoding. */
  lemma OpAppended(out: seq<byte>, prv: Slots, op: TxOp)
    ensures ((((out + [op.flags % 256]) + Uvarint.Put(op.logical)) + Uvarint.Put(op.dataOfs)) + Uvarint.Put(op.dataLen))
      + Uvarint.Put(0) + (Uvarint.Put(Mask(Changed(Plain(op).slots, prv))) + Fields(Plain(op).slots, prv, MAX_FIELDS))
      == out + EncodeOp(prv, Plain(op))
  {
    hide Fields, Mask, Uvarint.Put, OpSlots;
  }

  lemma NextOp(prv: Slots, ops: seq<TxOp>, k: nat, body: seq<byte>)
    requires k < |ops|
    ensures body + EncodeOps(prv, PlainOps(ops[k..]))
      == (body + EncodeOp(prv, Plain(ops[k]))) + EncodeOps(Plain(ops[k]).slots, PlainOps(ops[k + 1..]))
  {
    hide EncodeOp, OpSlots;
    assert PlainOps(ops[k..])[0] == Plain(ops[k]);
    assert PlainOps(ops[k..])[1..] == PlainOps(ops[k + 1..]);
    Associate(body, EncodeOp(prv, Plain(ops[k])), EncodeOps(Plain(ops[k]).slots, PlainOps(ops[k + 1..])));
  }

  lemma Backfilled(dst: seq<byte>, hole: seq<byte>, body: seq<byte>, length: seq<byte>)
    requires |hole| == |length| == 4
    ensures var out := (dst + hole) + body;
      out[..|dst|] + length + out[|dst| + 4..] == dst + (length + body)
  {
  }

  /** ReadVarint at a cursor. */
  method TakeVarint(src: seq<byte>, p: nat) returns (r: Option<u64>, next: nat)
    requires p <= |src|
    ensures p <= next <= |src|
    ensures match ReadVarint(src[p..])
            case None => r == None
            case Some((value, rest)) => r == Some(value) && rest == src[next..] && p < next
  {
    Uvarint.GetBound(src[p..]);
    match Uvarint.Get(src[p..]) {
      case None => r, next := None, p;
      case Some((value, n)) =>
        DropDrop(src, p, n);
        r, next := Some(value), p + n;
    }
  }

  /** Reads the slots the mask names over the current ones. */
  method TakeFields(src: seq<byte>, p: nat, hasFields: nat, cur: Slots) returns (r: Option<Slots>, next: nat)
    requires p <= |src|
    ensures p <= next <= |src|
    ensures match ReadFields(hasFields, 0, cur, src[p..])
            case None => r == None
            case Some((slots, rest)) => r == Some(slots) && rest == src[next..]
  {
    hide FromBigEndian, HasBit;
    var slots := cur;
    next := p;
    var j := 0;
    while j < MAX_FIELDS
      invariant j <= MAX_FIELDS && p <= next <= |src|
      invariant ReadFields(hasFields, j, slots, src[next..]) == ReadFields(hasFields, 0, cur, src[p..])
    {
      if HasBit(hasFields, j) {
        if next + 8 > |src| {
          return None, next;
        }
        assert src[next..][..8] == src[next..next + 8];
        DropDrop(src, next, 8);
        FromBigEndian8(src[next..next + 8]);
        slots := slots[j := FromBigEndian(src[next..next + 8])];
        next := next + 8;
      }
      j := j + 1;
    }
    r := Some(slots);
  }

  function Prepend(ops: seq<TxOp>, r: Result<seq<TxOp>, WireError>): Result<seq<TxOp>, WireError> {
    match r
    case Err(e) => Err(e)
    case Ok(more) => Ok(ops + more)
  }

  method ReadOps(src: seq<byte>) returns (r: Result<seq<TxOp>, WireError>)
    requires |src| < TWO_63 // as every slice is
    ensures r == ReadAll(|src|, ZERO_SLOTS, src)
  {
    hide ReadFields, ReadVarint, OpFromSlots;
    var p := 0;
    var cur := ZERO_SLOTS;
    var ops := [];
    assert src[0..] == src;
    assert Prepend([], ReadAll(|src|, cur, src)) == ReadAll(|src|, cur, src) by { PrependNone(ReadAll(|src|, cur, src)); }
    while p < |src|
      invariant p <= |src|
      invariant Prepend(ops, ReadAll(|src|, cur, src[p..])) == ReadAll(|src|, ZERO_SLOTS, src)
    {
      ghost var before := src[p..];
      var flags := src[p];
      DropDrop(src, p, 1);
      p := p + 1;
      var logical: Option<u64>, dataOfs: Option<u64>, dataLen: Option<u64>, skip: Option<u64>, hasFields: Option<u64>, slots: Option<Slots>;
      logical, p := TakeVarint(src, p);
      if logical.None? { return Err(Malformed); }
      dataOfs, p := TakeVarint(src, p);
      if dataOfs.None? { return Err(Malformed); }
      dataLen, p := TakeVarint(src, p);
      if dataLen.None? { return Err(Malformed); }
      skip, p := TakeVarint(src, p);
      if skip.None? { return Err(Malformed); }
      SkipOutcomes(|src|, p, skip.value);
      var next := Wrap64(p + ToInt64(skip.value));
      if next > |src| { return Err(Malformed); }
      if next < 0 { return Err(Panics); }
      if next < p { return Err(MovesBack); }
      DropDrop(src, p, skip.value);
      p := next;
      hasFields, p := TakeVarint(src, p);
      if hasFields.None? { return Err(Malformed); }
      slots, p := TakeFields(src, p, hasFields.value, cur);
      if slots.None? { return Err(Malformed); }
      var op := OpFromSlots(slots.value, flags, logical.value, dataOfs.value, dataLen.value);
      assert ReadOp(|src|, cur, before) == Ok(Read(op, slots.value, src[p..]));
      PrependNext(ops, op, ReadAll(|src|, slots.value, src[p..]));
      cur := slots.value;
      ops := ops + [op];
    }
    assert src[p..] == [];
    PrependNone(Ok(ops));
    r := Ok(ops);
  }

  lemma PrependNone(r: Result<seq<TxOp>, WireError>)
    ensures Prepend([], r) == r
    ensures r.Ok? ==> Prepend(r.value, Ok([])) == r
  {
    if r.Ok? {
      assert [] + r.value == r.value == r.value + [];
    }
  }

  lemma PrependNext(ops: seq<TxOp>, op: TxOp, r: Result<seq<TxOp>, WireError>)
    ensures Prepend(ops, Prepend([op], r)) == Prepend(ops + [op], r)
  {
    if r.Ok? {
      assert ops + ([op] + r.value) == (ops + [op]) + r.value;
    }
  }

  /** Slices the length-prefixed ops span out of src at p and parses it; the result carries the
      position after the span. */
  function ReadSection(src: seq<byte>, p: nat): (r: Result<(seq<TxOp>, nat), WireError>)
    ensures r.Ok? ==> p + 4 <= r.value.1 <= |src|
  {
    if p + 4 > |src| then Err(Malformed) else
    var opsLen := FromBigEndian(src[p..p + 4]);
    if opsLen > |src| - (p + 4) then Err(Malformed) else
    match ReadAll(opsLen, ZERO_SLOTS, src[p + 4..p + 4 + opsLen])
    case Err(e) => Err(e)
    case Ok(ops) => Ok((ops, p + 4 + opsLen))
  }

  method ReadOpsSection(src: seq<byte>, pos: nat) returns (r: Result<(seq<TxOp>, nat), WireError>)
    ensures r == ReadSection(src, pos)
  {
    hide ReadAll, FromBigEndian;
    if pos + 4 > |src| {
      return Err(Malformed);
    }
    var opsLen := FromBigEndian(src[pos..pos + 4]);
    FromBigEndianBound(src[pos..pos + 4]);
    Widths();
    var p := pos + 4;
    if opsLen > |src| - p {
      return Err(Malformed);
    }
    var ops := ReadOps(src[p..p + opsLen]);
    if ops.Err? {
      return Err(ops.error);
    }
    return Ok((ops.value, p + opsLen));
  }

  /** A section written anywhere in a buffer is read back whole, and the position after it is
      exactly its end. */
  lemma SectionRoundTrip(before: seq<byte>, ops: seq<TxOp>, after: seq<byte>)
    requires ByteFlags(ops) && |EncodeOps(ZERO_SLOTS, PlainOps(ops))| < TWO_32
    ensures ReadSection(before + OpsSection(ops) + after, |before|)
      == Ok((StrippedOps(ops), |before| + |OpsSection(ops)|))
  {
    hide ReadAll, FromBigEndian, BigEndian, EncodeOps;
    var body := EncodeOps(ZERO_SLOTS, PlainOps(ops));
    var src := before + OpsSection(ops) + after;
    BigEndianRoundTrip(|body|, 4);
    assert src[|before|..|before| + 4] == BigEndian(|body|, 4);
    assert src[|before| + 4..|before| + 4 + |body|] == body;
    PlainRoundTrip(ops);
  }
}
