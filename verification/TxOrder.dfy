/** The canonical order of a TxMsg's ops, and the element search over it. */
module TxOrder {
  import opened Bytes
  import opened Uids
  import opened TxOps
  import opened TxWire
  import opened Sorting

  // ---- the order of addresses ----

  function CompareUID(a: UID, b: UID): int {
    if a.Less(b) then -1 else if b.Less(a) then 1 else 0
  }

  function CompareElementID(a: Address, b: Address): int {
    var node := CompareUID(a.nodeID, b.nodeID);
    if node != 0 then node else
    var attr := CompareUID(a.attrID, b.attrID);
    if attr != 0 then attr else CompareUID(a.itemID, b.itemID)
  }

  /** Newest edit first within an element. */
  function Compare(a: Address, b: Address): int {
    var element := CompareElementID(a, b);
    if element != 0 then element else CompareUID(b.editID, a.editID)
  }

  predicate SameElement(a: Address, b: Address) {
    a.nodeID == b.nodeID && a.attrID == b.attrID && a.itemID == b.itemID
  }

  predicate SameAttr(a: Address, b: Address) {
    a.nodeID == b.nodeID && a.attrID == b.attrID
  }

  predicate OpLess(a: TxOp, b: TxOp) {
    Compare(a.addr, b.addr) < 0
  }

  lemma ElementOrder(a: Address, b: Address, c: Address)
    ensures CompareElementID(a, b) == 0 <==> SameElement(a, b)
    ensures CompareElementID(a, b) == -CompareElementID(b, a)
    ensures CompareElementID(a, b) <= 0 && CompareElementID(b, c) <= 0 ==> CompareElementID(a, c) <= 0
    ensures CompareElementID(a, b) <= 0 && CompareElementID(b, c) < 0 ==> CompareElementID(a, c) < 0
    ensures CompareElementID(a, b) < 0 && CompareElementID(b, c) <= 0 ==> CompareElementID(a, c) < 0
  {
  }

  /** Compare is a total order: 0 only on equal addresses, opposite on swapped ones, transitive. */
  lemma AddressOrder(a: Address, b: Address, c: Address)
    ensures Compare(a, b) == 0 <==> a == b
    ensures Compare(a, b) == -Compare(b, a)
    ensures Compare(a, b) < 0 && Compare(b, c) < 0 ==> Compare(a, c) < 0
  {
    hide CompareElementID;
    ElementOrder(a, b, c);
    ElementOrder(b, c, a);
    ElementOrder(a, c, b);
  }

  /** Node before attribute before item, each as a number, and the newer edit first. */
  lemma CompareIs(a: Address, b: Address)
    ensures Compare(a, b) < 0 <==>
      || a.nodeID.Less(b.nodeID)
      || (a.nodeID == b.nodeID && a.attrID.Less(b.attrID))
      || (a.nodeID == b.nodeID && a.attrID == b.attrID && a.itemID.Less(b.itemID))
      || (a.nodeID == b.nodeID && a.attrID == b.attrID && a.itemID == b.itemID && b.editID.Less(a.editID))
    ensures Compare(a, b) in {-1, 0, 1}
  {
  }

  lemma OpsAreOrdered()
    ensures StrictOrder(OpLess)
  {
    hide Compare;
    forall a: TxOp, b: TxOp, c: TxOp
      ensures !OpLess(a, a) && (OpLess(a, b) && OpLess(b, c) ==> OpLess(a, c))
    {
      AddressOrder(a.addr, b.addr, c.addr);
      AddressOrder(a.addr, a.addr, a.addr);
    }
  }

  // ---- canonical ops ----

  ghost predicate StrictlyAscending(ops: seq<TxOp>) {
    forall i, j | 0 <= i < j < |ops| :: OpLess(ops[i], ops[j])
  }

  /** Each op occurs once, and no other op has its address. */
  ghost predicate OneOpPerAddress(ops: multiset<TxOp>) {
    && (forall op | op in ops :: ops[op] == 1)
    && forall op, other | op in ops && other in ops && op.addr == other.addr :: op == other
  }

  ghost predicate SpanInside(op: TxOp, storeLen: nat) {
    op.dataOfs + op.dataLen <= storeLen
  }

  ghost predicate SoundOp(op: TxOp, storeLen: nat) {
    !op.addr.editID.IsNil() && SpanInside(op, storeLen)
  }

  /** The first unsound op decides the error. */
  ghost function FirstFault(ops: seq<TxOp>, storeLen: nat): Result<(), TxError> {
    if ops == [] then Ok(())
    else if ops[0].addr.editID.IsNil() then Err(BadEdit)
    else if !SpanInside(ops[0], storeLen) then Err(BadOp)
    else FirstFault(ops[1..], storeLen)
  }

  lemma {:induction false} FaultlessIff(ops: seq<TxOp>, storeLen: nat)
    ensures FirstFault(ops, storeLen).Ok? <==> forall op | op in ops :: SoundOp(op, storeLen)
  {
    if ops != [] {
      FaultlessIff(ops[1..], storeLen);
      assert ops[0] in ops;
      assert forall op | op in ops :: op == ops[0] || op in ops[1..];
    }
  }

  /** The fault of op i is the answer when i is unsound and no op before it is: a nil EditID, or else a span outside the store. */
  lemma {:induction false} FaultOfFirst(ops: seq<TxOp>, storeLen: nat, i: nat)
    requires i < |ops| && forall j | 0 <= j < i :: SoundOp(ops[j], storeLen)
    ensures ops[i].addr.editID == UID(0, 0) ==> FirstFault(ops, storeLen) == Err(BadEdit)
    ensures ops[i].addr.editID != UID(0, 0) && ops[i].dataOfs + ops[i].dataLen > storeLen ==> FirstFault(ops, storeLen) == Err(BadOp)
  {
    if i > 0 {
      assert SoundOp(ops[0], storeLen);
      FaultOfFirst(ops[1..], storeLen, i - 1);
    }
  }

  lemma SameMembers(a: seq<TxOp>, b: seq<TxOp>)
    requires multiset(a) == multiset(b)
    ensures forall op :: op in a <==> op in b
  {
    assert forall op :: op in a <==> op in multiset(a);
    assert forall op :: op in b <==> op in multiset(b);
  }

  lemma {:induction false} OnceEach(ops: seq<TxOp>)
    requires forall i, j | 0 <= i < j < |ops| :: ops[i] != ops[j]
    ensures forall op | op in multiset(ops) :: multiset(ops)[op] == 1
  {
    if ops != [] {
      OnceEach(ops[1..]);
      assert ops == [ops[0]] + ops[1..];
      assert ops[0] !in ops[1..];
      assert ops[0] !in multiset(ops[1..]);
    }
  }

  lemma TwiceIn(ops: seq<TxOp>, i: nat)
    requires 0 < i < |ops| && ops[i - 1] == ops[i]
    ensures multiset(ops)[ops[i]] >= 2
  {
    assert ops == ops[..i - 1] + [ops[i - 1]] + [ops[i]] + ops[i + 1..];
  }

  /** Sorted ops differ next to each other exactly when no two of them share an address. */
  lemma NeighboursDifferIff(ops: seq<TxOp>)
    requires Ascending(OpLess, ops)
    ensures (forall i | 0 < i < |ops| :: Compare(ops[i - 1].addr, ops[i].addr) != 0) <==> StrictlyAscending(ops)
    ensures StrictlyAscending(ops) <==> OneOpPerAddress(multiset(ops))
  {
    hide Compare;
    if forall i | 0 < i < |ops| :: Compare(ops[i - 1].addr, ops[i].addr) != 0 {
      NeighboursToAll(ops);
      StrictMeansOnePerAddress(ops);
    } else {
      var i :| 0 < i < |ops| && Compare(ops[i - 1].addr, ops[i].addr) == 0;
      AddressOrder(ops[i - 1].addr, ops[i].addr, ops[i].addr);
      assert !OpLess(ops[i - 1], ops[i]);
      assert ops[i - 1] in multiset(ops) && ops[i] in multiset(ops);
      if ops[i - 1] == ops[i] {
        TwiceIn(ops, i);
      }
    }
  }

  lemma NeighboursToAll(ops: seq<TxOp>)
    requires Ascending(OpLess, ops)
    requires forall i | 0 < i < |ops| :: Compare(ops[i - 1].addr, ops[i].addr) != 0
    ensures StrictlyAscending(ops)
  {
    hide Compare;
    forall i, j | 0 <= i < j < |ops| ensures OpLess(ops[i], ops[j]) {
      assert !OpLess(ops[j], ops[i]) && !OpLess(ops[i + 1], ops[i]);
      AddressOrder(ops[i].addr, ops[j].addr, ops[i].addr);
      AddressOrder(ops[i].addr, ops[i + 1].addr, ops[j].addr);
      if j > i + 1 {
        assert !OpLess(ops[j], ops[i + 1]);
        assert Compare(ops[i].addr, ops[i + 1].addr) != 0;
        AddressOrder(ops[i + 1].addr, ops[j].addr, ops[i].addr);
      } else {
        assert Compare(ops[j - 1].addr, ops[j].addr) != 0;
      }
    }
  }

  lemma StrictMeansOnePerAddress(ops: seq<TxOp>)
    requires StrictlyAscending(ops)
    ensures OneOpPerAddress(multiset(ops))
  {
    hide Compare;
    forall i, j | 0 <= i < j < |ops| ensures ops[i].addr != ops[j].addr {
      assert OpLess(ops[i], ops[j]);
      AddressOrder(ops[i].addr, ops[j].addr, ops[i].addr);
    }
    OnceEach(ops);
    forall op, other | op in multiset(ops) && other in multiset(ops) && op.addr == other.addr ensures op == other {
      var i :| 0 <= i < |ops| && ops[i] == op;
      var j :| 0 <= j < |ops| && ops[j] == other;
    }
  }

  /** The normal form is unique: however the ops were ordered before, they end in the same sequence. */
  lemma CanonicalIsUnique(a: seq<TxOp>, b: seq<TxOp>)
    requires StrictlyAscending(a) && StrictlyAscending(b) && multiset(a) == multiset(b)
    ensures a == b
  {
    hide Compare;
    OpsAreOrdered();
    StrictMeansOnePerAddress(a);
    StrictIsAscending(a);
    StrictIsAscending(b);
    forall x, y | x in multiset(a) && y in multiset(a) && !OpLess(x, y) && !OpLess(y, x) ensures x == y {
      AddressOrder(x.addr, y.addr, x.addr);
    }
    AscendingIsUnique(OpLess, a, b);
  }

  lemma StrictIsAscending(ops: seq<TxOp>)
    requires StrictlyAscending(ops)
    ensures Ascending(OpLess, ops)
  {
    hide Compare;
    forall i, j | 0 <= i < j < |ops| ensures !OpLess(ops[j], ops[i]) {
      assert OpLess(ops[i], ops[j]);
      AddressOrder(ops[i].addr, ops[j].addr, ops[i].addr);
    }
  }

  // ---- the search ----

  /** Where the search ends on canonical ops: the first comparison sends it all the way to one end. */
  ghost function Landing(ops: seq<TxOp>, want: Address): nat {
    if ops == [] || CompareElementID(ops[|ops| / 2].addr, want) <= 0 then 0 else |ops|
  }

  /** sort.Find's halving loop, with the comparison LoadValue hands it: op against wanted element. */
  method Search(ops: seq<TxOp>, want: Address) returns (idx: nat)
    ensures idx <= |ops|
    ensures StrictlyAscending(ops) ==> idx == Landing(ops, want)
  {
    hide CompareElementID;
    var i, j := 0, |ops|;
    while i < j
      invariant 0 <= i <= j <= |ops|
      invariant StrictlyAscending(ops) ==>
        || (i == 0 && j == |ops|)
        || (i == 0 && j <= |ops| / 2 && CompareElementID(ops[|ops| / 2].addr, want) <= 0)
        || (i > |ops| / 2 && j == |ops| && CompareElementID(ops[|ops| / 2].addr, want) > 0)
      decreases j - i
    {
      var h := (i + j) / 2;
      if StrictlyAscending(ops) && h != |ops| / 2 {
        ElementsAscend(ops, want, h, |ops| / 2);
        ElementsAscend(ops, want, |ops| / 2, h);
      }
      if CompareElementID(ops[h].addr, want) > 0 {
        i := h + 1;
      } else {
        j := h;
      }
    }
    idx := i;
  }

  lemma ElementsAscend(ops: seq<TxOp>, want: Address, i: nat, j: nat)
    requires StrictlyAscending(ops) && i < |ops| && j < |ops|
    ensures i < j && CompareElementID(ops[j].addr, want) <= 0 ==> CompareElementID(ops[i].addr, want) <= 0
    ensures i < j && CompareElementID(ops[i].addr, want) > 0 ==> CompareElementID(ops[j].addr, want) > 0
  {
    hide CompareElementID;
    if i < j {
      assert OpLess(ops[i], ops[j]);
      ElementOrder(ops[i].addr, ops[j].addr, want);
    }
  }

  /** In canonical ops the first op of an element is its newest edit. */
  lemma FirstIsNewest(ops: seq<TxOp>, i: nat, j: nat)
    requires StrictlyAscending(ops) && i < j < |ops| && SameElement(ops[i].addr, ops[j].addr)
    ensures ops[j].addr.editID.Less(ops[i].addr.editID)
  {
    assert OpLess(ops[i], ops[j]);
    ElementOrder(ops[i].addr, ops[j].addr, ops[i].addr);
  }

  /** The search lands on the wanted element exactly when it is both the first and the middle op's: any other
      element, though stored, is missed. */
  lemma SearchHitsIff(ops: seq<TxOp>, want: Address)
    requires StrictlyAscending(ops)
    ensures var idx := Landing(ops, want);
      (idx < |ops| && SameElement(ops[idx].addr, want))
      <==> (ops != [] && SameElement(ops[0].addr, want) && SameElement(ops[|ops| / 2].addr, want))
  {
    hide CompareElementID;
    if ops != [] {
      var middle := |ops| / 2;
      ElementOrder(ops[middle].addr, want, want);
      if SameElement(ops[0].addr, want) && CompareElementID(ops[middle].addr, want) <= 0 && middle > 0 {
        assert OpLess(ops[0], ops[middle]);
        ElementOrder(ops[0].addr, ops[middle].addr, want);
        ElementOrder(want, ops[0].addr, ops[middle].addr);
      }
    }
  }

  /** Two elements, both stored: the search for the first runs off the end and the one for the second lands on the
      first, so neither is found. */
  lemma TwoElementsAreMissed(a: TxOp, b: TxOp)
    requires CompareElementID(a.addr, b.addr) < 0
    ensures StrictlyAscending([a, b])
    ensures Landing([a, b], a.addr) == 2
    ensures Landing([a, b], b.addr) == 0 && !SameElement([a, b][0].addr, b.addr)
  {
    hide CompareElementID;
    ElementOrder(a.addr, b.addr, a.addr);
    ElementOrder(b.addr, b.addr, b.addr);
  }
}
