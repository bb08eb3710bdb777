/** FoldBinding: a cache of item values folded from the ops of incoming txs, last writer winning by
    EditID, with tombstones, an admission veto and an optional per-item merger. */
module Bindings {
  import opened Bytes
  import opened Uids
  import opened TxOps
  import opened TxWire

  const FLAG_DELETE_BIT := 8

  /** An admitted op with its carrying tx; a None value could not be decoded. */
  datatype Arrival<V> = Arrival(addr: Address, isDelete: bool, value: Option<V>, txID: UID, fromID: UID) {
    predicate IsUpsert() {
      !isDelete && value.Some?
    }
  }

  /** ItemMerger as state passing: mergeItem gives the merger's next state, and the merged value when
      it changed. */
  datatype ItemMerger<!V, !M> =
    | NoMerger
    | Merging(mergeItem: (M, Arrival<V>, Option<V>) -> (M, Option<V>), dropItem: (M, UID) -> M)

  datatype FoldState<V, M> = FoldState(edits: map<UID, UID>, items: map<UID, V>, merged: M)

  /** One admitted op, folded. */
  function Step<V, M>(merger: ItemMerger<V, M>, state: FoldState<V, M>, a: Arrival<V>): FoldState<V, M> {
    var item, editID := a.addr.itemID, a.addr.editID;
    var hasEdit := item in state.edits;
    if (merger.NoMerger? || a.isDelete) && hasEdit && !state.edits[item].Less(editID) then state else
    var edits := if !hasEdit || state.edits[item].Less(editID) then state.edits[item := editID] else state.edits;
    if a.isDelete then
      FoldState(edits, state.items - {item}, if merger.NoMerger? then state.merged else merger.dropItem(state.merged, item))
    else if a.value.None? then
      state.(edits := edits)
    else if merger.NoMerger? then
      FoldState(edits, state.items[item := a.value.value], state.merged)
    else
      var prev := if item in state.items then Some(state.items[item]) else None;
      var (merged, changed) := merger.mergeItem(state.merged, a, prev);
      FoldState(edits, if changed.Some? then state.items[item := changed.value] else state.items, merged)
  }

  function Fold<V, M>(merger: ItemMerger<V, M>, state: FoldState<V, M>, arrivals: seq<Arrival<V>>): FoldState<V, M>
    decreases |arrivals|
  {
    if arrivals == [] then state
    else Step(merger, Fold(merger, state, arrivals[..|arrivals| - 1]), arrivals[|arrivals| - 1])
  }

  /** With a merger or without, an item's edit is the newest seen, and no other item's moves. */
  lemma EditIsNewest<V, M>(merger: ItemMerger<V, M>, state: FoldState<V, M>, a: Arrival<V>)
    ensures var before, after, x := state.edits, Step(merger, state, a).edits, a.addr.itemID;
      && after.Keys == before.Keys + {x} && (forall y | y in before && y != x :: after[y] == before[y])
      && after[x] == if x in before && !before[x].Less(a.addr.editID) then before[x] else a.addr.editID
  {
  }

  /** With a merger every decodable upsert reaches it, however old, and the cache takes what it calls changed; a delete
      is dropped if stale and else removes the item from cache and merger; an undecodable value reaches neither.  Only
      the upserts and the fresh deletes of items seen before are heard. */
  lemma MergerSees<V, M>(merger: ItemMerger<V, M>, state: FoldState<V, M>, a: Arrival<V>)
    requires merger.Merging?
    ensures var after, x := Step(merger, state, a), a.addr.itemID;
      && (a.IsUpsert() ==>
            var (merged, changed) := merger.mergeItem(state.merged, a, if x in state.items then Some(state.items[x]) else None);
            && after.merged == merged && Heard(merger, state, a) == [OnItem(a)]
            && after.items == if changed.Some? then state.items[x := changed.value] else state.items)
      && (a.isDelete && x in state.edits && !state.edits[x].Less(a.addr.editID) ==> after == state && Heard(merger, state, a) == [])
      && (a.isDelete && (x !in state.edits || state.edits[x].Less(a.addr.editID)) ==>
            && after.merged == merger.dropItem(state.merged, x) && after.items == state.items - {x}
            && Heard(merger, state, a) == if x in state.edits then [OnItem(a)] else [])
      && (!a.isDelete && a.value.None? ==>
            after.merged == state.merged && after.items == state.items && Heard(merger, state, a) == [])
  {
  }

  lemma {:induction false} FoldConcat<V, M>(merger: ItemMerger<V, M>, state: FoldState<V, M>, s: seq<Arrival<V>>, t: seq<Arrival<V>>)
    ensures Fold(merger, state, s + t) == Fold(merger, Fold(merger, state, s), t)
    decreases |t|
  {
    if t == [] {
      assert s + t == s;
    } else {
      assert (s + t)[..|s + t| - 1] == s + t[..|t| - 1];
      FoldConcat(merger, state, s, t[..|t| - 1]);
    }
  }

  // ---- what the callbacks hear ----

  /** An OnItem call, of the arriving op and not of the merged value, or an OnSync call. */
  datatype Event<V> = OnItem(arrival: Arrival<V>) | OnSync

  /** Stale ops, undecodable values and deletes of items never seen are not heard. */
  function Heard<V, M>(merger: ItemMerger<V, M>, state: FoldState<V, M>, a: Arrival<V>): seq<Event<V>> {
    var item := a.addr.itemID;
    var hasEdit := item in state.edits;
    if (merger.NoMerger? || a.isDelete) && hasEdit && !state.edits[item].Less(a.addr.editID) then []
    else if if a.isDelete then hasEdit else a.value.Some? then [OnItem(a)]
    else []
  }

  function HeardAll<V, M>(merger: ItemMerger<V, M>, state: FoldState<V, M>, arrivals: seq<Arrival<V>>): seq<Event<V>>
    decreases |arrivals|
  {
    if arrivals == [] then [] else
    var front := arrivals[..|arrivals| - 1];
    HeardAll(merger, state, front) + Heard(merger, Fold(merger, state, front), arrivals[|arrivals| - 1])
  }

  /** A listener that stores what it is told. */
  function Rebuilt<V>(items: map<UID, V>, events: seq<Event<V>>): map<UID, V> {
    if events == [] then items else
    var before, last := Rebuilt(items, events[..|events| - 1]), events[|events| - 1];
    if last.OnSync? then before
    else if last.arrival.isDelete || last.arrival.value.None? then before - {last.arrival.addr.itemID}
    else before[last.arrival.addr.itemID := last.arrival.value.value]
  }

  /** Without a merger a listener that only follows the calls holds exactly the cached items, over every run. */
  lemma {:induction false} ListenerHoldsItems<V, M>(state: FoldState<V, M>, s: seq<Arrival<V>>)
    requires state.items.Keys <= state.edits.Keys
    ensures var after := Fold(NoMerger, state, s);
      && after.items.Keys <= after.edits.Keys
      && Rebuilt(state.items, HeardAll(NoMerger, state, s)) == after.items
    decreases |s|
  {
    if s != [] {
      var front, last := s[..|s| - 1], s[|s| - 1];
      ListenerHoldsItems(state, front);
      var before, told := Fold(NoMerger, state, front), HeardAll(NoMerger, state, front);
      if Heard(NoMerger, before, last) == [] {
        assert told + [] == told;
      } else {
        assert (told + [OnItem(last)])[..|told|] == told;
      }
    }
  }

  // ---- the binding ----

  datatype NodeUpdate = NodeUpdate(nodeID: UID, revision: UID, tx: TxImage)

  /** What a binding is constructed with.  A None item matches all. */
  datatype Filter<!V> = Filter(attrID: UID, item: Option<UID>, onAdmit: (Address, TxImage) -> bool,
                               decode: seq<byte> -> Option<V>)

  function ArrivalAt<V>(filter: Filter<V>, tx: TxImage, idx: nat): Arrival<V>
    requires idx < |tx.ops|
  {
    var op := tx.ops[idx];
    var value := match OpValueBytes(tx, idx) case Err(_) => None case Ok(bytes) => filter.decode(bytes);
    Arrival(op.addr, op.flags / FLAG_DELETE_BIT % 2 == 1, value, tx.envelope.txID, tx.header.fromID)
  }

  predicate Admits<V>(filter: Filter<V>, nodeID: UID, tx: TxImage, idx: nat)
    requires idx < |tx.ops|
  {
    var addr := tx.ops[idx].addr;
    && addr.nodeID == nodeID && addr.attrID == filter.attrID
    && (filter.item.None? || addr.itemID == filter.item.value)
    && filter.onAdmit(addr, tx)
  }

  /** The admitted ops among the first n of a tx, in order. */
  function Admitted<V>(filter: Filter<V>, nodeID: UID, tx: TxImage, n: nat): seq<Arrival<V>>
    requires n <= |tx.ops|
  {
    if n == 0 then []
    else Admitted(filter, nodeID, tx, n - 1) + (if Admits(filter, nodeID, tx, n - 1) then [ArrivalAt(filter, tx, n - 1)] else [])
  }

  lemma AdmittedNext<V>(filter: Filter<V>, nodeID: UID, tx: TxImage, idx: nat)
    requires idx < |tx.ops|
    ensures var admitted := Admitted(filter, nodeID, tx, idx);
      Admitted(filter, nodeID, tx, idx + 1)
        == if Admits(filter, nodeID, tx, idx) then admitted + [ArrivalAt(filter, tx, idx)] else admitted
  {
  }

  lemma NothingAdmitted<V, M>(merger: ItemMerger<V, M>, state: FoldState<V, M>, filter: Filter<V>, nodeID: UID, tx: TxImage)
    ensures Fold(merger, state, Admitted(filter, nodeID, tx, 0)) == state
    ensures HeardAll(merger, state, Admitted(filter, nodeID, tx, 0)) == []
  {
  }

  lemma FoldAppend<V, M>(merger: ItemMerger<V, M>, state: FoldState<V, M>, s: seq<Arrival<V>>, a: Arrival<V>)
    ensures Fold(merger, state, s + [a]) == Step(merger, Fold(merger, state, s), a)
    ensures HeardAll(merger, state, s + [a]) == HeardAll(merger, state, s) + Heard(merger, Fold(merger, state, s), a)
  {
    assert (s + [a])[..|s|] == s;
  }

  lemma Append<T>(a: seq<T>, b: seq<T>, c: seq<T>)
    ensures (a + b) + c == a + (b + c)
  {
  }

  /** The op is of this node and attribute, of this item or any, and not vetoed. */
  ghost predicate Passes<V>(filter: Filter<V>, nodeID: UID, tx: TxImage, i: nat)
    requires i < |tx.ops|
  {
    var addr := tx.ops[i].addr;
    && addr.nodeID == nodeID && addr.attrID == filter.attrID && (filter.item == None || filter.item == Some(addr.itemID))
    && filter.onAdmit(addr, tx)
  }

  /** An arrival is its op: address, delete bit and decoded value, under the tx's own ID and author. */
  ghost predicate Arrives<V>(filter: Filter<V>, tx: TxImage, i: nat, a: Arrival<V>)
    requires i < |tx.ops|
  {
    && a.addr == tx.ops[i].addr && (a.isDelete <==> tx.ops[i].flags / 8 % 2 == 1)
    && a.txID == tx.envelope.txID && a.fromID == tx.header.fromID
    && (OpValueBytes(tx, i).Ok? ==> a.value == filter.decode(OpValueBytes(tx, i).value))
    && (OpValueBytes(tx, i).Err? ==> a.value == None)
  }

  /** The arrivals of the ops at these places of the tx, in order. */
  ghost predicate ArriveInOrder<V>(filter: Filter<V>, tx: TxImage, at: seq<nat>, n: nat, arrivals: seq<Arrival<V>>)
    requires n <= |tx.ops|
  {
    && |at| == |arrivals|
    && (forall k | 0 <= k < |at| :: at[k] < n && Arrives(filter, tx, at[k], arrivals[k]))
    && (forall j, k | 0 <= j < k < |at| :: at[j] < at[k])
  }

  /** The admitted ops are exactly those that pass, each once, in the order of the tx. */
  lemma {:induction false} AdmittedAreThosePassing<V>(filter: Filter<V>, nodeID: UID, tx: TxImage, n: nat) returns (at: seq<nat>)
    requires n <= |tx.ops|
    ensures ArriveInOrder(filter, tx, at, n, Admitted(filter, nodeID, tx, n))
    ensures forall i: nat | i < n :: Passes(filter, nodeID, tx, i) <==> i in at
  {
    hide Admitted, Admits, ArrivalAt, Passes, Arrives;
    NothingAdmittedYet(filter, nodeID, tx);
    at := [];
    if n > 0 {
      var front := AdmittedAreThosePassing(filter, nodeID, tx, n - 1);
      AdmittedNext(filter, nodeID, tx, n - 1);
      ArrivesAt(filter, nodeID, tx, n - 1);
      if Passes(filter, nodeID, tx, n - 1) {
        at := front + [n - 1];
        OneMoreArrives(filter, tx, front, n - 1, Admitted(filter, nodeID, tx, n - 1), ArrivalAt(filter, tx, n - 1));
      } else {
        at := front;
      }
    }
  }

  lemma NothingAdmittedYet<V>(filter: Filter<V>, nodeID: UID, tx: TxImage)
    ensures Admitted(filter, nodeID, tx, 0) == []
  {
  }

  lemma OneMoreArrives<V>(filter: Filter<V>, tx: TxImage, at: seq<nat>, n: nat, arrivals: seq<Arrival<V>>, a: Arrival<V>)
    requires n < |tx.ops| && ArriveInOrder(filter, tx, at, n, arrivals) && Arrives(filter, tx, n, a)
    ensures ArriveInOrder(filter, tx, at + [n], n + 1, arrivals + [a])
  {
    hide Arrives;
  }

  lemma ArrivesAt<V>(filter: Filter<V>, nodeID: UID, tx: TxImage, i: nat)
    requires i < |tx.ops|
    ensures Passes(filter, nodeID, tx, i) <==> Admits(filter, nodeID, tx, i)
    ensures Arrives(filter, tx, i, ArrivalAt(filter, tx, i))
  {
    hide OpValueBytes;
  }

  /** The node a binding ends bound to: the first one it sees, if it starts with none. */
  function BoundTo(nodeID: UID, updates: seq<NodeUpdate>): UID {
    if updates == [] then nodeID else
    var bound := BoundTo(nodeID, updates[..|updates| - 1]);
    if bound.IsNil() then updates[|updates| - 1].nodeID else bound
  }

  /** The admitted ops of all the updates that reach the binding. */
  function AdmittedAll<V>(filter: Filter<V>, nodeID: UID, updates: seq<NodeUpdate>): seq<Arrival<V>> {
    if updates == [] then [] else
    var last, bound := updates[|updates| - 1], BoundTo(nodeID, updates);
    AdmittedAll(filter, nodeID, updates[..|updates| - 1])
    + (if last.nodeID == bound then Admitted(filter, bound, last.tx, |last.tx.ops|) else [])
  }

  /** A bound binding stays bound; an unbound one takes the first node that has an ID. */
  lemma {:induction false} BoundToFirst(nodeID: UID, updates: seq<NodeUpdate>)
    ensures nodeID != UID(0, 0) ==> BoundTo(nodeID, updates) == nodeID
    ensures nodeID == UID(0, 0) ==> IsFirstNode(BoundTo(nodeID, updates), updates)
    decreases |updates|
  {
    if updates != [] {
      var n := |updates| - 1;
      BoundToFirst(nodeID, updates[..n]);
      if nodeID == UID(0, 0) && BoundTo(nodeID, updates[..n]) != UID(0, 0) {
        var k :| 0 <= k < n && FirstNodeAt(BoundTo(nodeID, updates[..n]), updates[..n], k);
        assert FirstNodeAt(BoundTo(nodeID, updates), updates, k);
      } else if nodeID == UID(0, 0) && updates[n].nodeID != UID(0, 0) {
        assert FirstNodeAt(updates[n].nodeID, updates, n);
      }
    }
  }

  ghost predicate FirstNodeAt(nodeID: UID, updates: seq<NodeUpdate>, k: nat)
    requires k < |updates|
  {
    updates[k].nodeID == nodeID != UID(0, 0) && forall j | 0 <= j < k :: updates[j].nodeID == UID(0, 0)
  }

  ghost predicate IsFirstNode(nodeID: UID, updates: seq<NodeUpdate>) {
    if nodeID == UID(0, 0) then forall k | 0 <= k < |updates| :: updates[k].nodeID == UID(0, 0)
    else exists k | 0 <= k < |updates| :: FirstNodeAt(nodeID, updates, k)
  }

  /** What reaches a bound binding is what its node's updates admit, in order: nothing of another node's, all of its own. */
  lemma {:induction false} AdmittedPerUpdate<V>(filter: Filter<V>, nodeID: UID, updates: seq<NodeUpdate>, more: seq<NodeUpdate>)
    requires nodeID != UID(0, 0)
    ensures AdmittedAll(filter, nodeID, updates + more) == AdmittedAll(filter, nodeID, updates) + AdmittedAll(filter, nodeID, more)
    decreases |more|
  {
    hide AdmittedAll, Admitted;
    if more == [] {
      assert updates + more == updates;
      NoUpdates(filter, nodeID);
    } else {
      var n := |more| - 1;
      assert (updates + more)[..|updates| + n] == updates + more[..n];
      AdmittedPerUpdate(filter, nodeID, updates, more[..n]);
      LastUpdate(filter, nodeID, updates + more);
      LastUpdate(filter, nodeID, more);
    }
  }

  lemma NoUpdates<V>(filter: Filter<V>, nodeID: UID)
    ensures AdmittedAll(filter, nodeID, []) == []
  {
  }

  lemma LastUpdate<V>(filter: Filter<V>, nodeID: UID, updates: seq<NodeUpdate>)
    requires nodeID != UID(0, 0) && updates != []
    ensures var last := updates[|updates| - 1];
      AdmittedAll(filter, nodeID, updates) == AdmittedAll(filter, nodeID, updates[..|updates| - 1])
        + (if last.nodeID == nodeID then Admitted(filter, nodeID, last.tx, |last.tx.ops|) else [])
  {
    hide Admitted;
    BoundToFirst(nodeID, updates);
  }

  class FoldBinding<V, M> {
    const filter: Filter<V>
    const merger: ItemMerger<V, M>
    var revision: UID        // most recently witnessed NodeUpdate
    var nodeID: UID          // bound node ID
    var edits: map<UID, UID> // ItemID -> EditID (CRDT ordering)
    var items: map<UID, V>   // ItemID -> cached value (live items only)
    var merged: M            // the merger's per-item state
    var heard: seq<Event<V>> // the callbacks made so far

    constructor (filter: Filter<V>, merger: ItemMerger<V, M>, empty: M)
      ensures this.filter == filter && this.merger == merger && nodeID == NIL && revision == NIL
      ensures State() == FoldState(map[], map[], empty) && heard == []
    {
      this.filter, this.merger, this.merged := filter, merger, empty;
      revision, nodeID, edits, items, heard := NIL, NIL, map[], map[], [];
    }

    function State(): FoldState<V, M>
      reads this
    {
      FoldState(edits, items, merged)
    }

    method Bind(nodeID: UID)
      requires this.nodeID.IsSet() ==> this.nodeID == nodeID // the code panics otherwise
      modifies `nodeID
      ensures this.nodeID == nodeID
    {
      this.nodeID := nodeID;
    }

    /** Forgets edits, values and revision; the merger is not told. */
    method Clear()
      modifies `edits, `items, `revision
      ensures State() == FoldState(map[], map[], old(merged)) && revision == NIL
    {
      edits, items, revision := map[], map[], NIL;
    }

    method OnNodeUpdate(update: NodeUpdate)
      modifies this
      ensures revision == update.revision
      ensures nodeID == if old(nodeID).IsNil() then update.nodeID else old(nodeID)
      ensures State() == if update.nodeID != nodeID then old(State()) else
        Fold(merger, old(State()), Admitted(filter, nodeID, update.tx, |update.tx.ops|))
      ensures heard == old(heard) + if update.nodeID != nodeID then [] else
        HeardAll(merger, old(State()), Admitted(filter, nodeID, update.tx, |update.tx.ops|)) + [OnSync]
    {
      hide ArrivalAt, Admits, Step, Heard, Fold, HeardAll, Admitted;
      revision := update.revision;
      if nodeID != update.nodeID {
        if nodeID.IsNil() {
          nodeID := update.nodeID;
        } else {
          return;
        }
      }
      var tx := update.tx;
      ghost var before, told := State(), heard;
      NothingAdmitted(merger, before, filter, nodeID, tx);
      for idx := 0 to |tx.ops|
        invariant revision == update.revision && nodeID == update.nodeID
        invariant State() == Fold(merger, before, Admitted(filter, nodeID, tx, idx))
        invariant heard == told + HeardAll(merger, before, Admitted(filter, nodeID, tx, idx))
      {
        ghost var folded := Admitted(filter, nodeID, tx, idx);
        AdmittedNext(filter, nodeID, tx, idx);
        if Admits(filter, nodeID, tx, idx) {
          var a := ArrivalAt(filter, tx, idx);
          FoldAppend(merger, before, folded, a);
          Append(told, HeardAll(merger, before, folded), Heard(merger, State(), a));
          FoldOp(a);
        }
      }
      heard := heard + [OnSync];
      Append(told, HeardAll(merger, before, Admitted(filter, nodeID, tx, |tx.ops|)), [OnSync]);
    }

    method FoldOp(a: Arrival<V>)
      modifies `edits, `items, `merged, `heard
      ensures State() == Step(merger, old(State()), a)
      ensures heard == old(heard) + Heard(merger, old(State()), a)
    {
      var item, editID := a.addr.itemID, a.addr.editID;
      var hasEdit := item in edits;
      if (merger.NoMerger? || a.isDelete) && hasEdit && !edits[item].Less(editID) {
        return;
      }
      if !hasEdit || edits[item].Less(editID) {
        edits := edits[item := editID];
      }
      if a.isDelete {
        items := items - {item};
        if !merger.NoMerger? {
          merged := merger.dropItem(merged, item);
        }
        if hasEdit {
          heard := heard + [OnItem(a)];
        }
        return;
      }
      if a.value.None? {
        return;
      }
      if merger.NoMerger? {
        items := items[item := a.value.value];
      } else {
        var prev := if item in items then Some(items[item]) else None;
        var (state, changed) := merger.mergeItem(merged, a, prev);
        merged := state;
        if changed.Some? {
          items := items[item := changed.value];
        }
      }
      heard := heard + [OnItem(a)];
    }

    /** A run of updates: how ops are grouped into txs, and updates for other nodes, do not matter. */
    method Run(updates: seq<NodeUpdate>)
      modifies this
      ensures nodeID == BoundTo(old(nodeID), updates)
      ensures State() == Fold(merger, old(State()), AdmittedAll(filter, old(nodeID), updates))
    {
      hide Step, Admitted, Heard, HeardAll;
      ghost var before := State();
      for i := 0 to |updates|
        invariant nodeID == BoundTo(old(nodeID), updates[..i])
        invariant State() == Fold(merger, before, AdmittedAll(filter, old(nodeID), updates[..i]))
      {
        ghost var done := AdmittedAll(filter, old(nodeID), updates[..i]);
        assert updates[..i + 1][..i] == updates[..i];
        OnNodeUpdate(updates[i]);
        FoldConcat(merger, before, done, Admitted(filter, nodeID, updates[i].tx, |updates[i].tx.ops|));
        assert done + [] == done;
      }
      assert updates[..|updates|] == updates;
    }
  }

  // ---- convergence without a merger ----

  /** The same op, whichever tx carried it. */
  predicate SameOp<V(==)>(a: Arrival<V>, b: Arrival<V>) {
    a.addr == b.addr && a.isDelete == b.isDelete && a.value == b.value
  }

  ghost predicate Contains<V>(s: seq<Arrival<V>>, a: Arrival<V>) {
    exists b | b in s :: SameOp(a, b)
  }

  /** The same ops up to order, repetition and carrying tx. */
  ghost predicate SameOps<V>(s: seq<Arrival<V>>, t: seq<Arrival<V>>) {
    (forall a | a in s :: Contains(t, a)) && (forall a | a in t :: Contains(s, a))
  }

  ghost predicate SameEdit<V>(a: Arrival<V>, b: Arrival<V>) {
    a.addr.itemID == b.addr.itemID && a.addr.editID == b.addr.editID
  }

  /** One op per item and EditID. */
  ghost predicate Coherent<V>(s: seq<Arrival<V>>) {
    forall a, b | a in s && b in s && SameEdit(a, b) :: SameOp(a, b)
  }

  ghost predicate Newest<V>(s: seq<Arrival<V>>, a: Arrival<V>) {
    a in s && forall b | b in s && b.addr.itemID == a.addr.itemID :: !a.addr.editID.Less(b.addr.editID)
  }

  ghost predicate HasUpsert<V>(s: seq<Arrival<V>>, item: UID) {
    exists d | d in s :: d.addr.itemID == item && d.IsUpsert()
  }

  /** Each item's newest op is a delete or a decodable upsert, or the item has no decodable upsert. */
  ghost predicate Determined<V>(s: seq<Arrival<V>>) {
    forall a | a in s && Newest(s, a) && !a.isDelete && a.value.None? :: !HasUpsert(s, a.addr.itemID)
  }

  /** What any fold of s has reached. */
  ghost predicate Settled<V, M>(state: FoldState<V, M>, s: seq<Arrival<V>>) {
    && (forall x | x in state.items :: x in state.edits)
    && (forall x | x in state.edits :: exists a | a in s :: a.addr.itemID == x && a.addr.editID == state.edits[x])
    && (forall a | a in s :: a.addr.itemID in state.edits && !state.edits[a.addr.itemID].Less(a.addr.editID))
    && (forall a | a in s && state.edits[a.addr.itemID] == a.addr.editID :: ItemSettled(state, s, a))
  }

  /** The item of its newest op a. */
  ghost predicate ItemSettled<V, M>(state: FoldState<V, M>, s: seq<Arrival<V>>, a: Arrival<V>) {
    var x := a.addr.itemID;
    if a.isDelete then x !in state.items
    else if a.value.Some? then x in state.items && state.items[x] == a.value.value
    else x in state.items ==> HasUpsert(s, x)
  }

  lemma StepSettles<V, M>(state: FoldState<V, M>, s: seq<Arrival<V>>, a: Arrival<V>)
    requires Settled(state, s) && Coherent(s + [a])
    ensures Settled(Step(NoMerger, state, a), s + [a])
  {
    var t, after, x := s + [a], Step(NoMerger, state, a), a.addr.itemID;
    assert a in t;
    forall b | b in s ensures b in t {}
    forall y | y in after.edits
      ensures exists b | b in t :: b.addr.itemID == y && b.addr.editID == after.edits[y]
    {
      if after.edits != state.edits && y == x {
        assert a.addr.itemID == y && a.addr.editID == after.edits[y];
      } else {
        var b :| b in s && b.addr.itemID == y && b.addr.editID == state.edits[y];
        assert b in t;
      }
    }
    forall b | b in t
      ensures b.addr.itemID in after.edits && !after.edits[b.addr.itemID].Less(b.addr.editID)
      ensures after.edits[b.addr.itemID] == b.addr.editID ==> ItemSettled(after, t, b)
    {
      SettledAt(state, s, a, b);
    }
  }

  lemma SettledAt<V, M>(state: FoldState<V, M>, s: seq<Arrival<V>>, a: Arrival<V>, b: Arrival<V>)
    requires Settled(state, s) && Coherent(s + [a]) && b in s + [a]
    ensures var after := Step(NoMerger, state, a);
      && b.addr.itemID in after.edits && !after.edits[b.addr.itemID].Less(b.addr.editID)
      && (after.edits[b.addr.itemID] == b.addr.editID ==> ItemSettled(after, s + [a], b))
  {
    if b !in s {
      assert b == a;
    }
    if Step(NoMerger, state, a).edits[b.addr.itemID] == b.addr.editID {
      if state.edits != Step(NoMerger, state, a).edits && b.addr.itemID == a.addr.itemID {
        assert a in s + [a] && SameOp(b, a);
      } else {
        SettledBefore(state, s, a, b);
      }
    }
  }

  lemma SettledBefore<V, M>(state: FoldState<V, M>, s: seq<Arrival<V>>, a: Arrival<V>, b: Arrival<V>)
    requires Settled(state, s) && Coherent(s + [a]) && b in s + [a]
    requires b.addr.itemID in state.edits && state.edits[b.addr.itemID] == b.addr.editID
    ensures ItemSettled(state, s + [a], b)
  {
    var y := b.addr.itemID;
    var was :| was in s && was.addr.itemID == y && was.addr.editID == state.edits[y];
    assert was in s + [a] && SameEdit(b, was) && SameOp(b, was) && ItemSettled(state, s, was);
    if HasUpsert(s, y) {
      var d :| d in s && d.addr.itemID == y && d.IsUpsert();
      assert d in s + [a];
    }
  }

  lemma {:induction false} FoldSettles<V, M>(s: seq<Arrival<V>>, m: M)
    requires Coherent(s)
    ensures Settled(Fold(NoMerger, FoldState(map[], map[], m), s), s)
    decreases |s|
  {
    if s != [] {
      var front, last := s[..|s| - 1], s[|s| - 1];
      assert s == front + [last];
      forall a | a in front ensures a in s {}
      FoldSettles(front, m);
      StepSettles(Fold(NoMerger, FoldState(map[], map[], m), front), front, last);
    }
  }

  lemma {:induction false} MergedUntouched<V, M>(state: FoldState<V, M>, s: seq<Arrival<V>>)
    ensures Fold(NoMerger, state, s).merged == state.merged
    decreases |s|
  {
    if s != [] {
      MergedUntouched(state, s[..|s| - 1]);
    }
  }

  ghost function Folded<V, M>(s: seq<Arrival<V>>, m: M): FoldState<V, M> {
    Fold(NoMerger, FoldState(map[], map[], m), s)
  }

  /** The fold does not depend on order, repetition or the carrying txs. */
  ghost predicate OrderFree<V(!new), M>(s: seq<Arrival<V>>, m: M) {
    forall t: seq<Arrival<V>> | SameOps(s, t) :: Folded(t, m) == Folded(s, m)
  }

  lemma SameOpsCoherent<V>(s: seq<Arrival<V>>, t: seq<Arrival<V>>)
    requires Coherent(s) && SameOps(s, t)
    ensures Coherent(t)
  {
    forall a, b | a in t && b in t && SameEdit(a, b)
      ensures SameOp(a, b)
    {
      assert Contains(s, a) && Contains(s, b);
      var a', b' :| a' in s && SameOp(a, a') && b' in s && SameOp(b, b');
      assert SameEdit(a', b');
    }
  }

  /** The edits agree on any two deliveries of the same ops, decodable or not. */
  lemma EditsConverge<V, M>(s: seq<Arrival<V>>, t: seq<Arrival<V>>, m: M)
    requires Coherent(s) && SameOps(s, t)
    ensures Folded(s, m).edits == Folded(t, m).edits
  {
    hide Settled, Coherent, Contains, Fold;
    SameOpsCoherent(s, t);
    FoldSettles(s, m);
    FoldSettles(t, m);
    EditsBelow(s, t, m);
    EditsBelow(t, s, m);
    var p, q := Folded(s, m).edits, Folded(t, m).edits;
    forall x | x in p ensures x in q && p[x] == q[x] {
      assert !p[x].Less(q[x]) && !q[x].Less(p[x]);
    }
  }

  lemma EditsBelow<V, M>(s: seq<Arrival<V>>, t: seq<Arrival<V>>, m: M)
    requires Settled(Folded(s, m), s) && Settled(Folded(t, m), t) && SameOps(s, t)
    ensures forall x | x in Folded(s, m).edits :: x in Folded(t, m).edits && !Folded(t, m).edits[x].Less(Folded(s, m).edits[x])
  {
    forall x | x in Folded(s, m).edits
      ensures x in Folded(t, m).edits && !Folded(t, m).edits[x].Less(Folded(s, m).edits[x])
    {
      var a :| a in s && a.addr.itemID == x && a.addr.editID == Folded(s, m).edits[x];
      assert Contains(t, a);
      var b :| b in t && SameOp(a, b);
    }
  }

  lemma UpsertCarries<V>(s: seq<Arrival<V>>, t: seq<Arrival<V>>, x: UID)
    requires SameOps(s, t) && HasUpsert(t, x)
    ensures HasUpsert(s, x)
  {
    var d :| d in t && d.addr.itemID == x && d.IsUpsert();
    assert Contains(s, d);
    var e :| e in s && SameOp(d, e);
  }

  lemma ItemConverges<V, M>(s: seq<Arrival<V>>, t: seq<Arrival<V>>, m: M, x: UID)
    requires Coherent(s) && SameOps(s, t) && Determined(s)
    requires Settled(Folded(s, m), s) && Settled(Folded(t, m), t)
    requires Folded(s, m).edits == Folded(t, m).edits && x in Folded(s, m).edits
    ensures x in Folded(s, m).items <==> x in Folded(t, m).items
    ensures x in Folded(s, m).items ==> Folded(s, m).items[x] == Folded(t, m).items[x]
  {
    var p, q := Folded(s, m), Folded(t, m);
    var a :| a in s && a.addr.itemID == x && a.addr.editID == p.edits[x];
    assert Contains(t, a);
    var b :| b in t && SameOp(a, b);
    assert ItemSettled(p, s, a) && ItemSettled(q, t, b);
    if !a.isDelete && a.value.None? {
      assert Newest(s, a);
      if HasUpsert(t, x) {
        UpsertCarries(s, t, x);
      }
    }
  }

  /** Order, repetition and grouping into txs do not matter. */
  lemma Converges<V, M>(s: seq<Arrival<V>>, t: seq<Arrival<V>>, m: M)
    requires Coherent(s) && SameOps(s, t) && Determined(s)
    ensures Folded(s, m) == Folded(t, m)
  {
    hide Settled, Coherent, SameOps, Determined, Fold;
    SameOpsCoherent(s, t);
    EditsConverge(s, t, m);
    FoldSettles(s, m);
    FoldSettles(t, m);
    MergedUntouched(FoldState(map[], map[], m), s);
    MergedUntouched(FoldState(map[], map[], m), t);
    forall x | x in Folded(s, m).edits
      ensures x in Folded(s, m).items <==> x in Folded(t, m).items
      ensures x in Folded(s, m).items ==> Folded(s, m).items[x] == Folded(t, m).items[x]
    {
      ItemConverges(s, t, m, x);
    }
    assert Folded(s, m).items == Folded(t, m).items;
  }

  /** Two runs of updates over the same ops, in any order and however grouped into txs, leave a
      fresh binding the same. */
  lemma GroupingDoesNotMatter<V, M>(filter: Filter<V>, nodeID: UID, updates: seq<NodeUpdate>, regrouped: seq<NodeUpdate>, m: M)
    requires var s := AdmittedAll(filter, nodeID, updates);
      Coherent(s) && Determined(s) && SameOps(s, AdmittedAll(filter, nodeID, regrouped))
    ensures Folded(AdmittedAll(filter, nodeID, updates), m) == Folded(AdmittedAll(filter, nodeID, regrouped), m)
  {
    Converges(AdmittedAll(filter, nodeID, updates), AdmittedAll(filter, nodeID, regrouped), m);
  }

  /** What the fold converges to: per item, the value of its newest op, or nothing if that is a
      delete. */
  lemma NewestWins<V, M>(s: seq<Arrival<V>>, m: M, a: Arrival<V>)
    requires Coherent(s) && Newest(s, a)
    ensures var state, x := Folded(s, m), a.addr.itemID;
      && x in state.edits && state.edits[x] == a.addr.editID
      && (a.isDelete ==> x !in state.items)
      && (a.IsUpsert() ==> x in state.items && state.items[x] == a.value.value)
  {
    FoldSettles(s, m);
    var state, x := Folded(s, m), a.addr.itemID;
    var b :| b in s && b.addr.itemID == x && b.addr.editID == state.edits[x];
    assert !a.addr.editID.Less(b.addr.editID);
    assert ItemSettled(state, s, a);
  }

  // ---- and otherwise it diverges ----

  /** Once an item's newest op is in, the rest of a delivery cannot change it. */
  lemma {:induction false} Overtaken<V, M>(state: FoldState<V, M>, s: seq<Arrival<V>>, x: UID)
    requires x in state.edits
    requires forall a | a in s && a.addr.itemID == x :: !state.edits[x].Less(a.addr.editID)
    ensures var after := Fold(NoMerger, state, s);
      && x in after.edits && after.edits[x] == state.edits[x]
      && (x in after.items <==> x in state.items)
    decreases |s|
  {
    if s != [] {
      var front, last := s[..|s| - 1], s[|s| - 1];
      assert last in s;
      forall a | a in front ensures a in s {}
      Overtaken(state, front, x);
    }
  }

  lemma Repeating<V>(s: seq<Arrival<V>>, again: seq<Arrival<V>>)
    requires forall a | a in again :: a in s
    ensures SameOps(s, again + s)
  {
    forall b | b in s ensures Contains(again + s, b) && Contains(s, b) {
      assert b in again + s && SameOp(b, b);
    }
    forall b | b in again + s ensures Contains(s, b) {
      assert b in s;
    }
  }

  /** An item whose newest op cannot be decoded keeps an older value or not, as the order has it. */
  lemma Diverges<V, M>(s: seq<Arrival<V>>, m: M, a: Arrival<V>, d: Arrival<V>)
    requires Coherent(s) && Newest(s, a) && !a.isDelete && a.value.None?
    requires d in s && d.addr.itemID == a.addr.itemID && d.IsUpsert()
    ensures SameOps(s, [a] + s) && SameOps(s, [d, a] + s)
    ensures a.addr.itemID !in Folded([a] + s, m).items
    ensures a.addr.itemID in Folded([d, a] + s, m).items
  {
    hide Contains, SameOps;
    var x, empty := a.addr.itemID, FoldState(map[], map[], m);
    Repeating(s, [a]);
    Repeating(s, [d, a]);
    FoldConcat(NoMerger, empty, [a], s);
    FoldConcat(NoMerger, empty, [d, a], s);
    var late, early := Fold(NoMerger, empty, [a]), Fold(NoMerger, empty, [d, a]);
    assert [a][..0] == [] && [d, a][..1] == [d] && [d][..0] == [];
    assert Fold(NoMerger, empty, [d]) == Step(NoMerger, empty, d);
    assert !SameEdit(a, d);
    assert d.addr.editID.Less(a.addr.editID);
    Overtaken(late, s, x);
    Overtaken(early, s, x);
  }

  /** Exactly when the fold is a function of the set of admitted ops. */
  lemma OrderFreeIff<V(!new), M>(s: seq<Arrival<V>>, m: M)
    requires Coherent(s)
    ensures OrderFree(s, m) <==> Determined(s)
  {
    hide Coherent, SameOps, Newest, Folded;
    if Determined(s) {
      forall t: seq<Arrival<V>> | SameOps(s, t)
        ensures Folded(t, m) == Folded(s, m)
      {
        Converges(s, t, m);
      }
    } else {
      var a :| a in s && Newest(s, a) && !a.isDelete && a.value.None? && HasUpsert(s, a.addr.itemID);
      var d :| d in s && d.addr.itemID == a.addr.itemID && d.IsUpsert();
      Diverges(s, m, a, d);
      assert Folded([a] + s, m) != Folded([d, a] + s, m);
    }
  }
}
