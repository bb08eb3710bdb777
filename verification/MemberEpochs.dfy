/** MemberEpochMerger: per-field custody of member records.  Keys are member-owned, status is
    issuer-owned, and each field advances by its own EditID clock. */
module MemberEpochs {
  import opened Bytes
  import opened Uids
  import opened Bindings

  datatype KeyRef = KeyRef(cryptoKit: UID, pubKey: seq<byte>)

  /** `rest` stands for every field without custody. */
  datatype MemberEpoch = MemberEpoch(signingKey: Option<KeyRef>, encryptKey: Option<KeyRef>, status: int,
                                     epoch: Option<seq<byte>>, rest: seq<byte>)

  type Record = Arrival<MemberEpoch>

  datatype Custody = Custody(
    baseEdit: UID, base: Option<MemberEpoch>,
    signEdit: UID, signKey: Option<KeyRef>,
    encryptEdit: UID, encryptKey: Option<KeyRef>,
    statusEdit: UID, status: int, epoch: Option<seq<byte>>)

  const NEW_CUSTODY := Custody(NIL, None, NIL, None, NIL, None, NIL, 0, None)

  predicate Declared(key: Option<KeyRef>) {
    key.Some? && key.value.pubKey != []
  }

  /** A live authored record: its EditID is the TxID of the tx that carries it. */
  predicate CustodyLane(a: Record) {
    a.txID == a.addr.editID
  }

  predicate IsSelf(a: Record) {
    CustodyLane(a) && a.fromID == a.addr.itemID
  }

  predicate Signs(a: Record)
    requires a.value.Some?
  {
    CustodyLane(a) && Declared(a.value.value.signingKey)
  }

  predicate Encrypts(a: Record)
    requires a.value.Some?
  {
    Signs(a) && Declared(a.value.value.encryptKey)
  }

  // ---- the clocked fields, one at a time ----

  predicate TakesBase(st: Custody, a: Record) {
    st.base.None? || st.baseEdit.Less(a.addr.editID)
  }

  predicate TakesSign(st: Custody, a: Record)
    requires a.value.Some?
  {
    Signs(a) && (IsSelf(a) || !Declared(st.signKey)) && st.signEdit.Less(a.addr.editID)
  }

  predicate TakesEncrypt(st: Custody, a: Record)
    requires a.value.Some?
  {
    Encrypts(a) && (IsSelf(a) || !Declared(st.encryptKey)) && st.encryptEdit.Less(a.addr.editID)
  }

  predicate TakesStatus(st: Custody, a: Record, hasPrev: bool) {
    CustodyLane(a) && (!IsSelf(a) || !hasPrev) && st.statusEdit.Less(a.addr.editID)
  }

  /** The custody state after one record. */
  function Advance(st: Custody, a: Record, hasPrev: bool): Custody
    requires a.value.Some?
  {
    var r, editID := a.value.value, a.addr.editID;
    Custody(
      if TakesBase(st, a) then editID else st.baseEdit,
      if TakesBase(st, a) then Some(r) else st.base,
      if TakesSign(st, a) then editID else st.signEdit,
      if TakesSign(st, a) then r.signingKey else st.signKey,
      if TakesEncrypt(st, a) then editID else st.encryptEdit,
      if TakesEncrypt(st, a) then r.encryptKey else st.encryptKey,
      if TakesStatus(st, a, hasPrev) then editID else st.statusEdit,
      if TakesStatus(st, a, hasPrev) then r.status else st.status,
      if TakesStatus(st, a, hasPrev) && r.epoch.Some? then r.epoch else st.epoch)
  }

  predicate Changes(st: Custody, a: Record, hasPrev: bool)
    requires a.value.Some?
  {
    TakesBase(st, a) || TakesSign(st, a) || TakesEncrypt(st, a) || TakesStatus(st, a, hasPrev)
  }

  /** The served record: the base, overridden by every custody-owned field. */
  function Materialize(st: Custody): MemberEpoch
    requires st.base.Some?
  {
    var base := st.base.value;
    MemberEpoch(
      if st.signEdit.IsSet() then st.signKey else base.signingKey,
      if st.encryptEdit.IsSet() then st.encryptKey else base.encryptKey,
      if st.statusEdit.IsSet() then st.status else base.status,
      if st.statusEdit.IsSet() && st.epoch.Some? then st.epoch else base.epoch,
      base.rest)
  }

  type CustodyMap = map<UID, Custody>

  function CustodyOf(state: CustodyMap, member: UID): Custody {
    if member in state then state[member] else NEW_CUSTODY
  }

  function Merge(state: CustodyMap, a: Record, prev: Option<MemberEpoch>): (CustodyMap, Option<MemberEpoch>) {
    if a.value.None? then (state, None) else
    var st := CustodyOf(state, a.addr.itemID);
    var next := Advance(st, a, prev.Some?);
    (state[a.addr.itemID := next], if Changes(st, a, prev.Some?) && next.base.Some? then Some(Materialize(next)) else None)
  }

  /** In the fields of the record: when a key moves, and to what. */
  lemma KeysMove(p: Custody, a: Record, hasPrev: bool)
    requires a.value.Some?
    ensures var r, own, bySelf := a.value.value, a.txID == a.addr.editID, a.fromID == a.addr.itemID;
      && var signs := r.signingKey.Some? && r.signingKey.value.pubKey != [];
      && var encrypts := signs && r.encryptKey.Some? && r.encryptKey.value.pubKey != [];
      && var sign := own && signs && (bySelf || p.signKey.None? || p.signKey.value.pubKey == []) && p.signEdit.Less(a.addr.editID);
      && var encrypt := own && encrypts && (bySelf || p.encryptKey.None? || p.encryptKey.value.pubKey == [])
                        && p.encryptEdit.Less(a.addr.editID);
      && var q := Advance(p, a, hasPrev);
      && (q.signKey, q.signEdit) == (if sign then (r.signingKey, a.addr.editID) else (p.signKey, p.signEdit))
      && (q.encryptKey, q.encryptEdit) == (if encrypt then (r.encryptKey, a.addr.editID) else (p.encryptKey, p.encryptEdit))
  {
    hide UID.Less;
  }

  /** When base and status move, and to what; nothing else can change a member. */
  lemma BaseAndStatusMove(p: Custody, a: Record, hasPrev: bool)
    requires a.value.Some?
    ensures var r, own, bySelf := a.value.value, a.txID == a.addr.editID, a.fromID == a.addr.itemID;
      && var base := p.base.None? || p.baseEdit.Less(a.addr.editID);
      && var status := own && (!bySelf || !hasPrev) && p.statusEdit.Less(a.addr.editID);
      && var q := Advance(p, a, hasPrev);
      && (q.base, q.baseEdit) == (if base then (Some(r), a.addr.editID) else (p.base, p.baseEdit))
      && (q.status, q.statusEdit) == (if status then (r.status, a.addr.editID) else (p.status, p.statusEdit))
      && q.epoch == (if status && r.epoch != None then r.epoch else p.epoch)
      && (Changes(p, a, hasPrev) <==> base || status || q.signEdit != p.signEdit || q.encryptEdit != p.encryptEdit)
  {
  }

  function Drop(state: CustodyMap, item: UID): CustodyMap {
    state - {item}
  }

  /** The hook a member binding folds with. */
  function MemberMerger(): ItemMerger<MemberEpoch, CustodyMap> {
    Merging(Merge, Drop)
  }

  class MemberEpochMerger {
    var state: CustodyMap

    constructor ()
      ensures state == map[]
    {
      state := map[];
    }

    method DropItem(itemID: UID)
      modifies this
      ensures state == Drop(old(state), itemID)
    {
      state := state - {itemID};
    }

    /** Folds one arriving record, clause by clause. */
    method MergeItem(arrival: Record, prev: Option<MemberEpoch>) returns (merged: Option<MemberEpoch>)
      requires arrival.value.Some?
      modifies this
      ensures (state, merged) == Merge(old(state), arrival, prev)
    {
      hide Materialize, Declared, UID.Less;
      var incoming, memberID, editID := arrival.value.value, arrival.addr.itemID, arrival.addr.editID;
      var custodyLane := arrival.txID == editID;
      var isSelf := custodyLane && arrival.fromID == memberID;
      var st := CustodyOf(state, memberID);
      var changed := false;
      if st.base.None? || st.baseEdit.Less(editID) {
        st := st.(base := Some(incoming), baseEdit := editID);
        changed := true;
      }
      if custodyLane {
        if Declared(incoming.signingKey) {
          var priorSignEmpty := !Declared(st.signKey);
          if (isSelf || priorSignEmpty) && st.signEdit.Less(editID) {
            st := st.(signKey := incoming.signingKey, signEdit := editID);
            changed := true;
          }
          if Declared(incoming.encryptKey) {
            var priorEncryptEmpty := !Declared(st.encryptKey);
            if (isSelf || priorEncryptEmpty) && st.encryptEdit.Less(editID) {
              st := st.(encryptKey := incoming.encryptKey, encryptEdit := editID);
              changed := true;
            }
          }
        }
        if (!isSelf || prev.None?) && st.statusEdit.Less(editID) {
          st := st.(status := incoming.status, statusEdit := editID);
          if incoming.epoch.Some? {
            st := st.(epoch := incoming.epoch);
          }
          changed := true;
        }
      }
      state := state[memberID := st];
      merged := if changed then Some(Materialize(st)) else None;
    }
  }

  // ---- over every run ----

  type MemberState = FoldState<MemberEpoch, CustodyMap>

  const EMPTY: MemberState := FoldState(map[], map[], map[])

  function FoldMembers(state: MemberState, s: seq<Record>): MemberState {
    Fold(MemberMerger(), state, s)
  }

  function StepMember(state: MemberState, a: Record): MemberState {
    Step(MemberMerger(), state, a)
  }

  /** The cache serves, for every member, the base overridden by the custody-owned fields. */
  predicate CacheServes(state: MemberState) {
    && state.items.Keys == state.merged.Keys
    && forall x | x in state.merged :: state.merged[x].base.Some? && state.items[x] == Materialize(state.merged[x])
  }

  lemma StepKeepsCache(state: MemberState, a: Record)
    requires CacheServes(state)
    ensures CacheServes(StepMember(state, a))
  {
    var after, x := StepMember(state, a), a.addr.itemID;
    if !a.isDelete && a.value.Some? {
      var prev := if x in state.items then Some(state.items[x]) else None;
      var st := CustodyOf(state.merged, x);
      var next := Advance(st, a, prev.Some?);
      assert next.base.Some?;
      assert after.merged == state.merged[x := next];
      if !Changes(st, a, prev.Some?) {
        assert next == st;
        assert x in state.merged;
      }
    }
  }

  /** Over every run, deletes and undecodable values included. */
  lemma {:induction false} CacheAlwaysServes(state: MemberState, s: seq<Record>)
    requires CacheServes(state)
    ensures CacheServes(FoldMembers(state, s))
    decreases |s|
  {
    if s != [] {
      CacheAlwaysServes(state, s[..|s| - 1]);
      StepKeepsCache(FoldMembers(state, s[..|s| - 1]), s[|s| - 1]);
    }
  }

  /** After a Clear the merger's custody is still there: a record brings its member back exactly when it still changes
      something. */
  lemma ClearedComesBackIff(merged: CustodyMap, a: Record)
    requires !a.isDelete && a.value.Some?
    ensures a.addr.itemID in StepMember(FoldState(map[], map[], merged), a).items
       <==> Changes(CustodyOf(merged, a.addr.itemID), a, false)
  {
  }

  /** So the very record that filled the cache does not refill it. */
  lemma ClearLosesMember(a: Record)
    requires !a.isDelete && a.value.Some? && !a.addr.editID.IsNil()
    ensures var filled := StepMember(EMPTY, a);
      && a.addr.itemID in filled.items
      && a.addr.itemID !in StepMember(FoldState(map[], map[], filled.merged), a).items
  {
    assert NIL.Less(a.addr.editID);
  }

  ghost predicate Before(a: UID, b: UID) {
    !b.Less(a)
  }

  /** No clock runs backwards. */
  ghost predicate ClocksAdvance(p: Custody, q: Custody) {
    && Before(p.signEdit, q.signEdit) && Before(p.encryptEdit, q.encryptEdit) && Before(p.statusEdit, q.statusEdit)
    && (p.base.Some? ==> q.base.Some? && Before(p.baseEdit, q.baseEdit))
  }

  ghost predicate SameCustodyFields(p: Custody, q: Custody) {
    && p.signEdit == q.signEdit && p.signKey == q.signKey && p.encryptEdit == q.encryptEdit && p.encryptKey == q.encryptKey
    && p.statusEdit == q.statusEdit && p.status == q.status && p.epoch == q.epoch
  }

  /** What one record may do to its member's custody: clocks only advance; a declared key is replaced
      only by the member's own strictly newer custody-lane record that declares it; status is replaced
      only by a strictly newer custody-lane record, and by a member's own only when nothing was
      cached; a base-lane record touches no custody field. */
  ghost predicate SafeChange(p: Custody, q: Custody, a: Record, hasPrev: bool) {
    && ClocksAdvance(p, q)
    && (!CustodyLane(a) ==> SameCustodyFields(p, q))
    && (p.signKey != q.signKey && Declared(p.signKey) ==>
          IsSelf(a) && p.signEdit.Less(a.addr.editID) && q.signEdit == a.addr.editID
          && a.value.Some? && q.signKey == a.value.value.signingKey && Declared(q.signKey))
    && (p.encryptKey != q.encryptKey && Declared(p.encryptKey) ==>
          IsSelf(a) && p.encryptEdit.Less(a.addr.editID) && q.encryptEdit == a.addr.editID
          && a.value.Some? && q.encryptKey == a.value.value.encryptKey && Declared(q.encryptKey))
    && (p.status != q.status ==> CustodyLane(a) && p.statusEdit.Less(a.addr.editID) && !(IsSelf(a) && hasPrev))
  }

  lemma AdvanceIsSafe(st: Custody, a: Record, hasPrev: bool)
    requires a.value.Some?
    ensures SafeChange(st, Advance(st, a, hasPrev), a, hasPrev)
  {
  }

  lemma NoChangeIsSafe(st: Custody, a: Record, hasPrev: bool)
    ensures SafeChange(st, st, a, hasPrev)
  {
  }

  /** Every step of every run is safe for every member, and another member's record is no change. */
  lemma StepIsSafe(state: MemberState, a: Record, member: UID)
    requires !a.isDelete
    ensures var p, q := CustodyOf(state.merged, member), CustodyOf(StepMember(state, a).merged, member);
      && (a.addr.itemID == member ==> SafeChange(p, q, a, member in state.items))
      && (a.addr.itemID != member ==> p == q)
  {
    hide Advance, Materialize, Changes, SafeChange;
    var st := CustodyOf(state.merged, member);
    NoChangeIsSafe(st, a, member in state.items);
    if a.value.Some? {
      AdvanceIsSafe(st, a, member in state.items);
    }
  }

  /** In the fields of the record: a declared key changes only by a record of that member, whose carrying tx names the
      record's EditID as its own and the member as its author, which declares a signing key itself and is newer. */
  lemma OnlyTheMemberReplacesKeys(state: MemberState, a: Record, member: UID)
    requires !a.isDelete
    ensures var p, q := CustodyOf(state.merged, member), CustodyOf(StepMember(state, a).merged, member);
      && (p.signKey != q.signKey && p.signKey.Some? && p.signKey.value.pubKey != [] ==>
            && a.addr.itemID == member && a.txID == a.addr.editID && a.fromID == member
            && p.signEdit.Less(a.addr.editID) && a.value.Some? && q.signKey == a.value.value.signingKey)
      && (p.encryptKey != q.encryptKey && p.encryptKey.Some? && p.encryptKey.value.pubKey != [] ==>
            && a.addr.itemID == member && a.txID == a.addr.editID && a.fromID == member
            && p.encryptEdit.Less(a.addr.editID) && a.value.Some? && q.encryptKey == a.value.value.encryptKey
            && a.value.value.signingKey.Some? && a.value.value.signingKey.value.pubKey != [])
      && (p.status != q.status ==>
            && a.addr.itemID == member && a.txID == a.addr.editID && p.statusEdit.Less(a.addr.editID)
            && (a.fromID != member || member !in state.items) && a.value.Some? && q.status == a.value.value.status)
  {
    hide Materialize, Changes;
  }

  ghost predicate NoDeletes(s: seq<Record>) {
    forall a | a in s :: !a.isDelete
  }

  lemma {:induction false} ClocksNeverDecrease(state: MemberState, s: seq<Record>, member: UID)
    requires NoDeletes(s)
    ensures ClocksAdvance(CustodyOf(state.merged, member), CustodyOf(FoldMembers(state, s).merged, member))
    decreases |s|
  {
    if s != [] {
      hide StepMember, Fold;
      var front, last := s[..|s| - 1], s[|s| - 1];
      assert last in s;
      forall a | a in front ensures a in s {}
      ClocksNeverDecrease(state, front, member);
      StepIsSafe(FoldMembers(state, front), last, member);
      NoChangeIsSafe(CustodyOf(FoldMembers(state, front).merged, member), last, true);
      LastStep(state, s);
    }
  }

  lemma LastStep(state: MemberState, s: seq<Record>)
    requires s != []
    ensures FoldMembers(state, s) == StepMember(FoldMembers(state, s[..|s| - 1]), s[|s| - 1])
  {
  }
}
