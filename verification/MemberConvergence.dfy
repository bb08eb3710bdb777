/** What a member's custody converges to under any delivery order with repeats, and exactly when each
    field does not depend on that order. */
module MemberConvergence {
  import opened Bytes
  import opened Uids
  import opened Bindings
  import opened MemberEpochs

  ghost predicate Of(a: Record, x: UID) {
    a.addr.itemID == x
  }

  /** Delete-free, decodable, non-nil EditIDs; an EditID names one record, and its author where a
      custody-lane delivery names one. */
  ghost predicate Delivery(s: seq<Record>) {
    && (forall a | a in s :: !a.isDelete && a.value.Some? && !a.addr.editID.IsNil())
    && (forall a, b | a in s && b in s && SameEdit(a, b) :: OneRecord(a, b))
  }

  ghost predicate OneRecord(a: Record, b: Record) {
    a.value == b.value && (CustodyLane(a) && CustodyLane(b) ==> a.fromID == b.fromID)
  }

  /** The same records up to order and repetition. */
  ghost predicate SameRecords(s: seq<Record>, t: seq<Record>) {
    forall a :: a in s <==> a in t
  }

  /** A delivery of the same records. */
  ghost predicate Redelivery(s: seq<Record>, t: seq<Record>) {
    SameRecords(s, t) && forall a | a in t :: a.value.Some?
  }

  lemma SameDelivery(s: seq<Record>, t: seq<Record>)
    requires Delivery(s) && SameRecords(s, t)
    ensures Delivery(t) && Redelivery(s, t)
  {
  }

  lemma RepeatOne(s: seq<Record>, a: Record)
    requires a in s
    ensures SameRecords(s, [a] + s)
  {
  }

  /** The newest of the records that meet a test some record meets. */
  lemma {:induction false} SomeNewest(s: seq<Record>, test: Record -> bool, a: Record) returns (n: Record)
    requires a in s && test(a)
    ensures n in s && test(n)
    ensures forall b | b in s && test(b) :: !n.addr.editID.Less(b.addr.editID)
    decreases |s|
  {
    var front, last := s[..|s| - 1], s[|s| - 1];
    assert s == front + [last];
    n := a;
    if b :| b in front && test(b) {
      n := SomeNewest(front, test, b);
    }
    if test(last) && (n !in front || n.addr.editID.Less(last.addr.editID)) {
      n := last;
    }
  }

  ghost predicate Seen(s: seq<Record>, x: UID) {
    exists a | a in s :: Of(a, x)
  }

  // ---- one member's fold ----

  ghost function CustodyFold(s: seq<Record>, x: UID): Custody
    requires forall a | a in s :: a.value.Some?
    decreases |s|
  {
    if s == [] then NEW_CUSTODY else
    var front, last := s[..|s| - 1], s[|s| - 1];
    assert last in s && forall a | a in front :: a in s;
    var st := CustodyFold(front, x);
    if Of(last, x) then Advance(st, last, Seen(front, x)) else st
  }

  /** The member's entry in a binding's fold. */
  lemma {:induction false} FoldIsCustodyFold(s: seq<Record>, x: UID)
    requires forall a | a in s :: !a.isDelete && a.value.Some?
    ensures var state := FoldMembers(EMPTY, s);
      && CustodyOf(state.merged, x) == CustodyFold(s, x)
      && (x in state.items <==> Seen(s, x))
    decreases |s|
  {
    if s != [] {
      hide Advance, Changes, Materialize;
      var front, last := s[..|s| - 1], s[|s| - 1];
      assert s == front + [last] && last in s;
      forall a | a in front ensures a in s {}
      FoldIsCustodyFold(front, x);
      CacheAlwaysServes(EMPTY, front);
      CacheAlwaysServes(EMPTY, s);
      LastStep(EMPTY, s);
    }
  }

  /** One more record at the end. */
  lemma FoldNext(s: seq<Record>, a: Record, x: UID)
    requires forall b | b in s + [a] :: b.value.Some?
    ensures forall b | b in s :: b.value.Some?
    ensures CustodyFold(s + [a], x) == if Of(a, x) then Advance(CustodyFold(s, x), a, Seen(s, x)) else CustodyFold(s, x)
    ensures a.value.Some?
  {
    assert (s + [a])[..|s|] == s && (s + [a])[|s|] == a;
    assert a in s + [a];
    forall b | b in s ensures b.value.Some? {
      assert b in s + [a];
    }
  }

  // ---- keys: the signing key and the encryption key obey the same rule ----

  datatype KeyField = Signing | Encrypting

  /** A custody-lane record that declares this key (the encryption key only beside a signing key). */
  ghost predicate Declares(f: KeyField, a: Record) {
    a.value.Some? && if f.Signing? then Signs(a) else Encrypts(a)
  }

  ghost function KeyOf(f: KeyField, r: MemberEpoch): Option<KeyRef> {
    if f.Signing? then r.signingKey else r.encryptKey
  }

  ghost function HeldKey(f: KeyField, st: Custody): Option<KeyRef> {
    if f.Signing? then st.signKey else st.encryptKey
  }

  ghost function Clock(f: KeyField, st: Custody): UID {
    if f.Signing? then st.signEdit else st.encryptEdit
  }

  ghost predicate TakesKey(f: KeyField, st: Custody, a: Record) {
    Declares(f, a) && (IsSelf(a) || !Declared(HeldKey(f, st))) && Clock(f, st).Less(a.addr.editID)
  }

  lemma AdvanceKey(f: KeyField, st: Custody, a: Record, hasPrev: bool)
    requires a.value.Some?
    ensures var next := Advance(st, a, hasPrev);
      && HeldKey(f, next) == (if TakesKey(f, st, a) then KeyOf(f, a.value.value) else HeldKey(f, st))
      && Clock(f, next) == (if TakesKey(f, st, a) then a.addr.editID else Clock(f, st))
    ensures Declares(f, a) ==> Declared(KeyOf(f, a.value.value))
  {
  }

  /** The record whose key is held. */
  ghost predicate Holds(f: KeyField, st: Custody, x: UID, a: Record) {
    Of(a, x) && Declares(f, a) && Clock(f, st) == a.addr.editID && HeldKey(f, st) == KeyOf(f, a.value.value)
  }

  ghost predicate KeyInvariant(f: KeyField, st: Custody, s: seq<Record>, x: UID) {
    && (Declared(HeldKey(f, st)) ==> exists a | a in s :: Holds(f, st, x, a))
    && (!Declared(HeldKey(f, st)) ==> Clock(f, st) == NIL && HeldKey(f, st) == None)
    && (forall a | a in s && Of(a, x) && Declares(f, a) :: Declared(HeldKey(f, st)))
    && (forall a | a in s && Of(a, x) && Declares(f, a) && IsSelf(a) :: !Clock(f, st).Less(a.addr.editID))
  }

  lemma {:induction false} KeyInvariantHolds(f: KeyField, s: seq<Record>, x: UID)
    requires Delivery(s)
    ensures KeyInvariant(f, CustodyFold(s, x), s, x)
    decreases |s|
  {
    if s != [] {
      var front, last := s[..|s| - 1], s[|s| - 1];
      assert s == front + [last] && last in s;
      forall a | a in front ensures a in s {}
      KeyInvariantHolds(f, front, x);
      KeyStep(f, CustodyFold(front, x), front, last, x);
      FoldNext(front, last, x);
    }
  }

  lemma KeyStep(f: KeyField, st: Custody, s: seq<Record>, a: Record, x: UID)
    requires KeyInvariant(f, st, s, x) && a.value.Some? && !a.addr.editID.IsNil()
    ensures KeyInvariant(f, if Of(a, x) then Advance(st, a, Seen(s, x)) else st, s + [a], x)
  {
    hide Advance;
    var next := if Of(a, x) then Advance(st, a, Seen(s, x)) else st;
    AdvanceKey(f, st, a, Seen(s, x));
    assert a in s + [a];
    if Of(a, x) && TakesKey(f, st, a) {
      assert Holds(f, next, x, a);
    } else if Declared(HeldKey(f, st)) {
      var b :| b in s && Holds(f, st, x, b);
      assert b in s + [a] && Holds(f, next, x, b);
    }
  }

  ghost predicate NewestDeclaring(f: KeyField, s: seq<Record>, x: UID, n: Record) {
    && n in s && Of(n, x) && Declares(f, n)
    && forall b | b in s && Of(b, x) && Declares(f, b) :: !n.addr.editID.Less(b.addr.editID)
  }

  /** Every record that declares the key is the one record. */
  ghost predicate OnlyDeclaring(f: KeyField, s: seq<Record>, x: UID, n: Record) {
    forall b | b in s && Of(b, x) && Declares(f, b) :: b.addr.editID == n.addr.editID
  }

  /** Where a self-authored newest record declares the key, or no other record does, the key ends at
      that record, in whatever order it and the others came and however often. */
  lemma KeyEndsAtNewest(f: KeyField, s: seq<Record>, x: UID, n: Record)
    requires Delivery(s) && NewestDeclaring(f, s, x, n)
    requires IsSelf(n) || OnlyDeclaring(f, s, x, n)
    ensures Clock(f, CustodyFold(s, x)) == n.addr.editID
    ensures HeldKey(f, CustodyFold(s, x)) == KeyOf(f, n.value.value)
  {
    hide CustodyFold;
    KeyInvariantHolds(f, s, x);
    var a :| a in s && Holds(f, CustodyFold(s, x), x, a);
    assert SameEdit(a, n) && OneRecord(a, n);
  }

  /** A record some delivery can leave the key at: it declares the key, and no self-authored record that does is newer. */
  ghost predicate KeyContender(f: KeyField, s: seq<Record>, x: UID, c: Record) {
    && c in s && Of(c, x) && Declares(f, c)
    && forall a | a in s && Of(a, x) && Declares(f, a) && IsSelf(a) :: !c.addr.editID.Less(a.addr.editID)
  }

  /** Every delivery leaves the key at a contender, or unset where no record declares it. */
  lemma KeyEndsAtContender(f: KeyField, s: seq<Record>, x: UID) returns (c: Option<Record>)
    requires Delivery(s)
    ensures c.Some? ==> KeyContender(f, s, x, c.value) && Holds(f, CustodyFold(s, x), x, c.value)
    ensures c.None? ==> HeldKey(f, CustodyFold(s, x)) == None && Clock(f, CustodyFold(s, x)) == NIL
    ensures c.None? ==> forall a | a in s && Of(a, x) :: !Declares(f, a)
  {
    hide CustodyFold;
    KeyInvariantHolds(f, s, x);
    if Declared(HeldKey(f, CustodyFold(s, x))) {
      var a :| a in s && Holds(f, CustodyFold(s, x), x, a);
      c := Some(a);
    } else {
      c := None;
    }
  }

  /** Delivered first, a contender seeds the key and nothing displaces it. */
  lemma {:induction false} KeyContenderWins(f: KeyField, s: seq<Record>, p: seq<Record>, x: UID, c: Record)
    requires Delivery(s) && KeyContender(f, s, x, c) && forall a | a in p :: a in s
    ensures forall a | a in [c] + p :: a.value.Some?
    ensures Holds(f, CustodyFold([c] + p, x), x, c)
    decreases |p|
  {
    hide Advance;
    if p == [] {
      assert [c] + p == [] + [c];
      FoldNext([], c, x);
      AdvanceKey(f, NEW_CUSTODY, c, false);
      assert CustodyFold([], x) == NEW_CUSTODY;
    } else {
      var front, last := p[..|p| - 1], p[|p| - 1];
      assert [c] + p == ([c] + front) + [last] && last in p;
      KeyContenderWins(f, s, front, x, c);
      FoldNext([c] + front, last, x);
      AdvanceKey(f, CustodyFold([c] + front, x), last, Seen([c] + front, x));
    }
  }

  /** The keys some delivery of these records ends at. */
  ghost predicate KeyReachable(f: KeyField, s: seq<Record>, x: UID, key: Option<KeyRef>) {
    exists t :: Redelivery(s, t) && HeldKey(f, CustodyFold(t, x)) == key
  }

  lemma ContenderReachable(f: KeyField, s: seq<Record>, x: UID, c: Record)
    requires Delivery(s) && KeyContender(f, s, x, c)
    ensures Redelivery(s, [c] + s) && Holds(f, CustodyFold([c] + s, x), x, c)
  {
    KeyContenderWins(f, s, s, x, c);
    RepeatOne(s, c);
  }

  /** Exactly the contenders' keys, or none where no record declares one. */
  lemma KeyReachableIff(f: KeyField, s: seq<Record>, x: UID, key: Option<KeyRef>)
    requires Delivery(s)
    ensures KeyReachable(f, s, x, key) <==>
      || (exists c :: KeyContender(f, s, x, c) && KeyOf(f, c.value.value) == key)
      || (key == None && forall a | a in s && Of(a, x) :: !Declares(f, a))
  {
    hide CustodyFold, Delivery;
    if t :| Redelivery(s, t) && HeldKey(f, CustodyFold(t, x)) == key {
      SameDelivery(s, t);
      var c := KeyEndsAtContender(f, t, x);
      assert c.Some? ==> KeyContender(f, s, x, c.value);
    }
    if c :| KeyContender(f, s, x, c) && KeyOf(f, c.value.value) == key {
      ContenderReachable(f, s, x, c);
    }
    if key == None && forall a | a in s && Of(a, x) :: !Declares(f, a) {
      SameDelivery(s, s);
      var c := KeyEndsAtContender(f, s, x);
      assert Redelivery(s, s);
    }
  }

  ghost predicate KeyOrderFree(f: KeyField, s: seq<Record>, x: UID) {
    forall t, u | Redelivery(s, t) && Redelivery(s, u) :: HeldKey(f, CustodyFold(t, x)) == HeldKey(f, CustodyFold(u, x))
  }

  /** Exactly when a member's key does not depend on delivery: all records not older than the newest self-authored
      declaration (all declarations, where there is none) declare the same key. */
  lemma KeyOrderFreeIff(f: KeyField, s: seq<Record>, x: UID)
    requires Delivery(s)
    ensures KeyOrderFree(f, s, x) <==>
      forall c, d | KeyContender(f, s, x, c) && KeyContender(f, s, x, d) :: KeyOf(f, c.value.value) == KeyOf(f, d.value.value)
  {
    hide CustodyFold, Delivery;
    if KeyOrderFree(f, s, x) {
      forall c, d | KeyContender(f, s, x, c) && KeyContender(f, s, x, d)
        ensures KeyOf(f, c.value.value) == KeyOf(f, d.value.value)
      {
        ContenderReachable(f, s, x, c);
        ContenderReachable(f, s, x, d);
      }
    } else {
      var t, u :| Redelivery(s, t) && Redelivery(s, u) && HeldKey(f, CustodyFold(t, x)) != HeldKey(f, CustodyFold(u, x));
      SameDelivery(s, t);
      SameDelivery(s, u);
      var c := KeyEndsAtContender(f, t, x);
      var d := KeyEndsAtContender(f, u, x);
      assert c.Some? ==> KeyContender(f, s, x, c.value);
      assert d.Some? ==> KeyContender(f, s, x, d.value);
    }
  }

  ghost predicate KeyClockOrderFree(f: KeyField, s: seq<Record>, x: UID) {
    forall t, u | Redelivery(s, t) && Redelivery(s, u) :: Clock(f, CustodyFold(t, x)) == Clock(f, CustodyFold(u, x))
  }

  /** The record the key is held from does not depend on delivery exactly when the newest declaring record is the
      member's own or the only one. */
  lemma KeyClockOrderFreeIff(f: KeyField, s: seq<Record>, x: UID)
    requires Delivery(s)
    ensures KeyClockOrderFree(f, s, x) <==> forall n | NewestDeclaring(f, s, x, n) :: IsSelf(n) || OnlyDeclaring(f, s, x, n)
  {
    hide CustodyFold;
    if n :| NewestDeclaring(f, s, x, n) && !IsSelf(n) && !OnlyDeclaring(f, s, x, n) {
      var d := OtherContender(f, s, x, n);
      ContenderReachable(f, s, x, n);
      ContenderReachable(f, s, x, d);
    }
    if forall n | NewestDeclaring(f, s, x, n) :: IsSelf(n) || OnlyDeclaring(f, s, x, n) {
      forall t, u | Redelivery(s, t) && Redelivery(s, u) ensures Clock(f, CustodyFold(t, x)) == Clock(f, CustodyFold(u, x)) {
        ClockSettles(f, s, t, x);
        ClockSettles(f, s, u, x);
      }
    }
  }

  lemma ClockSettles(f: KeyField, s: seq<Record>, t: seq<Record>, x: UID)
    requires Delivery(s) && Redelivery(s, t)
    requires forall n | NewestDeclaring(f, s, x, n) :: IsSelf(n) || OnlyDeclaring(f, s, x, n)
    ensures Clock(f, CustodyFold(t, x)) == Clock(f, CustodyFold(s, x))
  {
    hide CustodyFold;
    SameDelivery(s, t);
    if a :| a in s && Of(a, x) && Declares(f, a) {
      var n := SomeNewest(s, (b: Record) => Of(b, x) && Declares(f, b), a);
      assert NewestDeclaring(f, s, x, n) && NewestDeclaring(f, t, x, n);
      KeyEndsAtNewest(f, s, x, n);
      KeyEndsAtNewest(f, t, x, n);
    } else {
      var c := KeyEndsAtContender(f, s, x);
      var d := KeyEndsAtContender(f, t, x);
    }
  }

  lemma OtherContender(f: KeyField, s: seq<Record>, x: UID, n: Record) returns (c: Record)
    requires Delivery(s) && NewestDeclaring(f, s, x, n) && !IsSelf(n) && !OnlyDeclaring(f, s, x, n)
    ensures KeyContender(f, s, x, n) && KeyContender(f, s, x, c) && c.addr.editID != n.addr.editID
  {
    if a :| a in s && Of(a, x) && Declares(f, a) && IsSelf(a) {
      c := SomeNewest(s, (b: Record) => Of(b, x) && Declares(f, b) && IsSelf(b), a);
      assert !SameEdit(c, n) || OneRecord(c, n);
    } else {
      c :| c in s && Of(c, x) && Declares(f, c) && c.addr.editID != n.addr.editID;
    }
  }

  // ---- the base ----

  ghost predicate NewestOf(s: seq<Record>, x: UID, n: Record) {
    n in s && Of(n, x) && forall b | b in s && Of(b, x) :: !n.addr.editID.Less(b.addr.editID)
  }

  ghost predicate BaseInvariant(st: Custody, s: seq<Record>, x: UID) {
    && (st.base.Some? ==> exists a | a in s :: Of(a, x) && st.baseEdit == a.addr.editID && st.base == a.value)
    && (forall a | a in s && Of(a, x) :: st.base.Some? && !st.baseEdit.Less(a.addr.editID))
  }

  lemma {:induction false} BaseInvariantHolds(s: seq<Record>, x: UID)
    requires Delivery(s)
    ensures BaseInvariant(CustodyFold(s, x), s, x)
    decreases |s|
  {
    if s != [] {
      var front, last := s[..|s| - 1], s[|s| - 1];
      assert s == front + [last] && last in s;
      forall a | a in front ensures a in s {}
      BaseInvariantHolds(front, x);
      FoldNext(front, last, x);
      var st, next := CustodyFold(front, x), CustodyFold(s, x);
      if next.base == st.base && next.baseEdit == st.baseEdit && st.base.Some? {
        var a :| a in front && Of(a, x) && st.baseEdit == a.addr.editID && st.base == a.value;
        assert a in s;
      }
    }
  }

  /** The base ends at the newest record. */
  lemma BaseEndsAtNewest(s: seq<Record>, x: UID, n: Record)
    requires Delivery(s) && NewestOf(s, x, n)
    ensures CustodyFold(s, x).base == n.value && CustodyFold(s, x).baseEdit == n.addr.editID
  {
    hide CustodyFold;
    BaseInvariantHolds(s, x);
    var a :| a in s && Of(a, x) && CustodyFold(s, x).baseEdit == a.addr.editID && CustodyFold(s, x).base == a.value;
    assert SameEdit(a, n) && OneRecord(a, n);
  }

  // ---- status, and the epoch tag that rides it ----

  ghost predicate NewestCustody(s: seq<Record>, x: UID, n: Record) {
    && n in s && Of(n, x) && CustodyLane(n)
    && forall b | b in s && Of(b, x) && CustodyLane(b) :: !n.addr.editID.Less(b.addr.editID)
  }

  ghost predicate Issues(a: Record, x: UID) {
    Of(a, x) && CustodyLane(a) && !IsSelf(a)
  }

  /** The record whose status is held, and its epoch tag if it had one; a self-authored record leaves no older tag. */
  ghost predicate SetStatus(st: Custody, x: UID, a: Record) {
    && Of(a, x) && CustodyLane(a) && a.value.Some? && st.statusEdit == a.addr.editID && st.status == a.value.value.status
    && (a.value.value.epoch.Some? || IsSelf(a) ==> st.epoch == a.value.value.epoch)
  }

  ghost predicate Tags(s: seq<Record>, x: UID, epoch: Option<seq<byte>>) {
    exists d | d in s :: Of(d, x) && CustodyLane(d) && d.value.Some? && d.value.value.epoch == epoch
  }

  ghost predicate StatusInvariant(st: Custody, s: seq<Record>, x: UID) {
    && (st.statusEdit != NIL ==> exists a | a in s :: SetStatus(st, x, a))
    && (st.statusEdit == NIL ==> st.status == 0 && st.epoch == None)
    && (st.statusEdit == NIL && Seen(s, x) ==> exists a | a in s :: Of(a, x) && !CustodyLane(a))
    && (forall a | a in s && Issues(a, x) :: !st.statusEdit.Less(a.addr.editID))
    && (st.epoch.Some? ==> Tags(s, x, st.epoch))
  }

  lemma {:induction false} StatusInvariantHolds(s: seq<Record>, x: UID)
    requires Delivery(s)
    ensures StatusInvariant(CustodyFold(s, x), s, x)
    decreases |s|
  {
    if s != [] {
      hide Advance, StatusInvariant;
      var front, last := s[..|s| - 1], s[|s| - 1];
      assert s == front + [last] && last in s;
      forall a | a in front ensures a in s {}
      StatusInvariantHolds(front, x);
      FoldNext(front, last, x);
      StatusStep(CustodyFold(front, x), front, last, x);
    } else {
      EmptyFold(x);
    }
  }

  lemma EmptyFold(x: UID)
    ensures CustodyFold([], x) == NEW_CUSTODY && !Seen([], x)
  {
  }

  lemma StatusStep(st: Custody, s: seq<Record>, a: Record, x: UID)
    requires StatusInvariant(st, s, x) && a.value.Some? && !a.addr.editID.IsNil()
    ensures StatusInvariant(if Of(a, x) then Advance(st, a, Seen(s, x)) else st, s + [a], x)
  {
    hide Advance;
    var next := if Of(a, x) then Advance(st, a, Seen(s, x)) else st;
    AdvanceStatus(st, a, Seen(s, x));
    assert a in s + [a];
    if st.statusEdit != NIL {
      var b :| b in s && SetStatus(st, x, b);
      assert Seen(s, x);
    }
    if Of(a, x) && TakesStatus(st, a, Seen(s, x)) {
      assert SetStatus(next, x, a);
    } else if st.statusEdit != NIL {
      var b :| b in s && SetStatus(st, x, b);
      assert b in s + [a] && SetStatus(next, x, b);
    } else if Seen(s, x) {
      var b :| b in s && Of(b, x) && !CustodyLane(b);
      assert b in s + [a];
    } else if Of(a, x) {
      assert NIL.Less(a.addr.editID);
      assert !CustodyLane(a);
    }
    if next.epoch.Some? && next.epoch == st.epoch {
      var d :| d in s && Of(d, x) && CustodyLane(d) && d.value.Some? && d.value.value.epoch == st.epoch;
      assert d in s + [a];
    }
  }

  lemma AdvanceStatus(st: Custody, a: Record, hasPrev: bool)
    requires a.value.Some?
    ensures var took, next := TakesStatus(st, a, hasPrev), Advance(st, a, hasPrev);
      && next.statusEdit == (if took then a.addr.editID else st.statusEdit)
      && next.status == (if took then a.value.value.status else st.status)
      && next.epoch == (if took && a.value.value.epoch.Some? then a.value.value.epoch else st.epoch)
  {
  }

  /** An issuer's newest custody-lane record decides the status, and the epoch tag if it carries one. */
  lemma StatusEndsAtIssuer(s: seq<Record>, x: UID, n: Record)
    requires Delivery(s) && NewestCustody(s, x, n) && !IsSelf(n)
    ensures var st := CustodyFold(s, x);
      && st.statusEdit == n.addr.editID && st.status == n.value.value.status
      && (n.value.value.epoch.Some? ==> st.epoch == n.value.value.epoch)
  {
    hide CustodyFold;
    StatusInvariantHolds(s, x);
    var st := CustodyFold(s, x);
    assert NIL.Less(n.addr.editID);
    var a :| a in s && SetStatus(st, x, a);
    assert SameEdit(a, n) && OneRecord(a, n);
  }

  /** A record some delivery can leave the status at: custody-lane, and no issuer's record is newer. */
  ghost predicate StatusContender(s: seq<Record>, x: UID, c: Record) {
    && c in s && Of(c, x) && CustodyLane(c) && c.value.Some?
    && forall a | a in s && Issues(a, x) :: !c.addr.editID.Less(a.addr.editID)
  }

  /** Some delivery leaves the status unset: no issuer has written, and another record than the member's own can come first. */
  ghost predicate MayStayUnset(s: seq<Record>, x: UID) {
    && (forall a | a in s :: !Issues(a, x))
    && (Seen(s, x) ==> exists a | a in s :: Of(a, x) && !CustodyLane(a))
  }

  /** Every delivery leaves the status at a contender, or unset. */
  lemma StatusEndsAtContender(s: seq<Record>, x: UID) returns (c: Option<Record>)
    requires Delivery(s)
    ensures c.Some? ==> StatusContender(s, x, c.value) && SetStatus(CustodyFold(s, x), x, c.value)
    ensures c.None? ==> MayStayUnset(s, x)
    ensures c.None? ==> var st := CustodyFold(s, x); st.statusEdit == NIL && st.status == 0 && st.epoch == None
  {
    hide CustodyFold;
    StatusInvariantHolds(s, x);
    if CustodyFold(s, x).statusEdit != NIL {
      var a :| a in s && SetStatus(CustodyFold(s, x), x, a);
      c := Some(a);
    } else {
      c := None;
      forall a | a in s ensures !Issues(a, x) {
        assert NIL.Less(a.addr.editID);
      }
    }
  }

  /** Delivered first, a contender sets the status and its tag, and nothing displaces them. */
  lemma {:induction false} StatusContenderWins(s: seq<Record>, p: seq<Record>, x: UID, c: Record)
    requires Delivery(s) && StatusContender(s, x, c) && forall a | a in p :: a in s
    ensures forall a | a in [c] + p :: a.value.Some?
    ensures var st := CustodyFold([c] + p, x);
      st.statusEdit == c.addr.editID && st.status == c.value.value.status && st.epoch == c.value.value.epoch
    decreases |p|
  {
    hide Advance, CustodyFold;
    assert c in [c] + p;
    if p == [] {
      assert [c] + p == [] + [c];
      FoldNext([], c, x);
      EmptyFold(x);
      AdvanceStatus(NEW_CUSTODY, c, false);
      assert NIL.Less(c.addr.editID);
    } else {
      var front, last := p[..|p| - 1], p[|p| - 1];
      assert [c] + p == ([c] + front) + [last] && last in p;
      StatusContenderWins(s, front, x, c);
      FoldNext([c] + front, last, x);
      assert c in [c] + front;
      AdvanceStatus(CustodyFold([c] + front, x), last, true);
    }
  }

  /** Delivered first, a base-lane record keeps every self-authored record from setting the status. */
  lemma {:induction false} StaysUnset(s: seq<Record>, p: seq<Record>, x: UID, b: Record)
    requires Delivery(s) && (forall a | a in s :: !Issues(a, x)) && forall a | a in p :: a in s
    requires b in s && Of(b, x) && !CustodyLane(b)
    ensures forall a | a in [b] + p :: a.value.Some?
    ensures var st := CustodyFold([b] + p, x); st.statusEdit == NIL && st.status == 0 && st.epoch == None
    decreases |p|
  {
    hide Advance, CustodyFold;
    if p == [] {
      assert [b] + p == [] + [b];
      FoldNext([], b, x);
      EmptyFold(x);
      AdvanceStatus(NEW_CUSTODY, b, false);
    } else {
      var front, last := p[..|p| - 1], p[|p| - 1];
      assert [b] + p == ([b] + front) + [last] && last in p;
      StaysUnset(s, front, x, b);
      FoldNext([b] + front, last, x);
      assert b in [b] + front;
      AdvanceStatus(CustodyFold([b] + front, x), last, true);
    }
  }

  /** Delivered right after an older tagged record, an untagged issuer's newest leaves that tag in place. */
  lemma {:induction false} TagKept(s: seq<Record>, p: seq<Record>, x: UID, n: Record, d: Record)
    requires Delivery(s) && StatusContender(s, x, n) && !IsSelf(n) && n.value.value.epoch.None?
    requires d in s && Of(d, x) && CustodyLane(d) && d.value.value.epoch.Some? && d.addr.editID.Less(n.addr.editID)
    requires forall a | a in p :: a in s
    ensures forall a | a in [d, n] + p :: a.value.Some?
    ensures CustodyFold([d, n] + p, x).statusEdit == n.addr.editID && CustodyFold([d, n] + p, x).epoch == d.value.value.epoch
    decreases |p|
  {
    hide Advance, CustodyFold;
    if p == [] {
      assert [d, n] + p == [d] + [n] && [d] == [] + [d];
      EmptyFold(x);
      assert NIL.Less(d.addr.editID);
      FoldNext([], d, x);
      FoldNext([d], n, x);
      AdvanceStatus(NEW_CUSTODY, d, false);
      AdvanceStatus(CustodyFold([d], x), n, Seen([d], x));
    } else {
      var front, last := p[..|p| - 1], p[|p| - 1];
      assert [d, n] + p == ([d, n] + front) + [last] && last in p;
      TagKept(s, front, x, n, d);
      FoldNext([d, n] + front, last, x);
      assert d in [d, n] + front;
      AdvanceStatus(CustodyFold([d, n] + front, x), last, true);
    }
  }

  lemma StatusContenderReachable(s: seq<Record>, x: UID, c: Record)
    requires Delivery(s) && StatusContender(s, x, c)
    ensures Redelivery(s, [c] + s)
    ensures var st := CustodyFold([c] + s, x);
      st.statusEdit == c.addr.editID && st.status == c.value.value.status && st.epoch == c.value.value.epoch
  {
    StatusContenderWins(s, s, x, c);
    RepeatOne(s, c);
  }

  lemma UnsetReachable(s: seq<Record>, x: UID) returns (t: seq<Record>)
    requires Delivery(s) && MayStayUnset(s, x)
    ensures Redelivery(s, t)
    ensures var st := CustodyFold(t, x); st.statusEdit == NIL && st.status == 0 && st.epoch == None
  {
    hide CustodyFold;
    if Seen(s, x) {
      var b :| b in s && Of(b, x) && !CustodyLane(b);
      StaysUnset(s, s, x, b);
      RepeatOne(s, b);
      t := [b] + s;
    } else {
      t := s;
      SameDelivery(s, s);
      var c := StatusEndsAtContender(s, x);
    }
  }

  /** An older tag can stay behind an untagged issuer's newest record. */
  ghost predicate TagMayStay(s: seq<Record>, x: UID, n: Record, d: Record) {
    && StatusContender(s, x, n) && !IsSelf(n) && n.value.Some? && n.value.value.epoch.None?
    && d in s && Of(d, x) && CustodyLane(d) && d.value.Some? && d.value.value.epoch.Some?
    && d.addr.editID.Less(n.addr.editID)
  }

  lemma TagReachable(s: seq<Record>, x: UID, n: Record, d: Record)
    requires Delivery(s) && TagMayStay(s, x, n, d)
    ensures Redelivery(s, [d, n] + s) && CustodyFold([d, n] + s, x).epoch == d.value.value.epoch
  {
    TagKept(s, s, x, n, d);
  }

  /** Exactly the statuses deliveries of these records end at: the contenders', and unset where that can stay. */
  lemma StatusReachableIff(s: seq<Record>, x: UID, status: int)
    requires Delivery(s)
    ensures (exists t :: Redelivery(s, t) && CustodyFold(t, x).status == status) <==>
      || (exists c :: StatusContender(s, x, c) && c.value.value.status == status)
      || (MayStayUnset(s, x) && status == 0)
  {
    hide CustodyFold, Delivery;
    if t :| Redelivery(s, t) && CustodyFold(t, x).status == status {
      var c := EndsFor(s, t, x);
    }
    if c :| StatusContender(s, x, c) && c.value.value.status == status {
      StatusContenderReachable(s, x, c);
    }
    if MayStayUnset(s, x) && status == 0 {
      var t := UnsetReachable(s, x);
    }
  }

  /** Where a delivery of the same records ends, said of the records themselves. */
  lemma EndsFor(s: seq<Record>, t: seq<Record>, x: UID) returns (c: Option<Record>)
    requires Delivery(s) && Redelivery(s, t)
    ensures c.Some? ==> StatusContender(s, x, c.value) && SetStatus(CustodyFold(t, x), x, c.value)
    ensures c.None? ==> MayStayUnset(s, x)
    ensures c.None? ==> var st := CustodyFold(t, x); st.statusEdit == NIL && st.status == 0 && st.epoch == None
    ensures CustodyFold(t, x).epoch.Some? ==> Tags(s, x, CustodyFold(t, x).epoch)
  {
    hide CustodyFold;
    SameDelivery(s, t);
    c := StatusEndsAtContender(t, x);
    StatusInvariantHolds(t, x);
    if CustodyFold(t, x).epoch.Some? {
      var d :| d in t && Of(d, x) && CustodyLane(d) && d.value.Some? && d.value.value.epoch == CustodyFold(t, x).epoch;
      assert d in s;
    }
    if c.None? && Seen(s, x) {
      var a :| a in s && Of(a, x);
      assert a in t && Seen(t, x);
      var b :| b in t && Of(b, x) && !CustodyLane(b);
      assert b in s;
    }
  }

  ghost predicate StatusOrderFree(s: seq<Record>, x: UID) {
    forall t, u | Redelivery(s, t) && Redelivery(s, u) :: CustodyFold(t, x).status == CustodyFold(u, x).status
  }

  /** Exactly when a member's status does not depend on delivery: the custody-lane records not older than any
      issuer's give the same status, and that is 0 where the status can stay unset. */
  lemma StatusOrderFreeIff(s: seq<Record>, x: UID)
    requires Delivery(s)
    ensures StatusOrderFree(s, x) <==>
      && (forall c, d | StatusContender(s, x, c) && StatusContender(s, x, d) :: c.value.value.status == d.value.value.status)
      && (MayStayUnset(s, x) ==> forall c | StatusContender(s, x, c) :: c.value.value.status == 0)
  {
    hide CustodyFold, Delivery, MayStayUnset;
    if StatusOrderFree(s, x) {
      forall c, d | StatusContender(s, x, c) && StatusContender(s, x, d)
        ensures c.value.value.status == d.value.value.status
      {
        StatusContenderReachable(s, x, c);
        StatusContenderReachable(s, x, d);
      }
      if MayStayUnset(s, x) {
        var t := UnsetReachable(s, x);
        forall c | StatusContender(s, x, c) ensures c.value.value.status == 0 {
          StatusContenderReachable(s, x, c);
        }
      }
    } else {
      var t, u :| Redelivery(s, t) && Redelivery(s, u) && CustodyFold(t, x).status != CustodyFold(u, x).status;
      var c := EndsFor(s, t, x);
      var d := EndsFor(s, u, x);
    }
  }

  ghost predicate StatusClockOrderFree(s: seq<Record>, x: UID) {
    forall t, u | Redelivery(s, t) && Redelivery(s, u) :: CustodyFold(t, x).statusEdit == CustodyFold(u, x).statusEdit
  }

  /** Every record of the member is the one custody-lane record. */
  ghost predicate OnlyRecord(s: seq<Record>, x: UID, n: Record) {
    forall b | b in s && Of(b, x) :: CustodyLane(b) && b.addr.editID == n.addr.editID
  }

  /** The record the status is held from does not depend on delivery exactly when the newest custody-lane record is
      issuer-authored, or is all the member has. */
  lemma StatusClockOrderFreeIff(s: seq<Record>, x: UID)
    requires Delivery(s)
    ensures StatusClockOrderFree(s, x) <==> forall n | NewestCustody(s, x, n) :: !IsSelf(n) || OnlyRecord(s, x, n)
  {
    hide CustodyFold, StatusContender;
    if n :| NewestCustody(s, x, n) && IsSelf(n) && !OnlyRecord(s, x, n) {
      TwoClocks(s, x, n);
    } else {
      var edit := OneClock(s, x);
    }
  }

  lemma TwoClocks(s: seq<Record>, x: UID, n: Record)
    requires Delivery(s) && NewestCustody(s, x, n) && IsSelf(n) && !OnlyRecord(s, x, n)
    ensures !StatusClockOrderFree(s, x)
  {
    hide CustodyFold;
    StatusContenderReachable(s, x, n);
    if a :| a in s && Issues(a, x) {
      var i := SomeNewest(s, (b: Record) => Issues(b, x), a);
      assert !SameEdit(i, n) || OneRecord(i, n);
      StatusContenderReachable(s, x, i);
    } else if b :| b in s && Of(b, x) && !CustodyLane(b) {
      var t := UnsetReachable(s, x);
    } else {
      var b :| b in s && Of(b, x) && b.addr.editID != n.addr.editID;
      StatusContenderReachable(s, x, b);
    }
  }

  lemma OneClock(s: seq<Record>, x: UID) returns (edit: UID)
    requires Delivery(s) && forall n | NewestCustody(s, x, n) :: !IsSelf(n) || OnlyRecord(s, x, n)
    ensures forall t | Redelivery(s, t) :: CustodyFold(t, x).statusEdit == edit
  {
    hide CustodyFold;
    if a :| a in s && Of(a, x) && CustodyLane(a) {
      var n := SomeNewest(s, (b: Record) => Of(b, x) && CustodyLane(b), a);
      assert NewestCustody(s, x, n) && Seen(s, x);
      edit := n.addr.editID;
    } else {
      edit := NIL;
    }
    forall t | Redelivery(s, t) ensures CustodyFold(t, x).statusEdit == edit {
      var c := EndsFor(s, t, x);
    }
  }

  /** Exactly the epoch tags deliveries of these records end at: the contenders', an older one an untagged issuer's
      newest record leaves in place, and none where the status can stay unset. */
  lemma TagReachableIff(s: seq<Record>, x: UID, epoch: Option<seq<byte>>)
    requires Delivery(s)
    ensures (exists t :: Redelivery(s, t) && CustodyFold(t, x).epoch == epoch) <==>
      || (exists c :: StatusContender(s, x, c) && c.value.value.epoch == epoch)
      || (exists n, d :: TagMayStay(s, x, n, d) && d.value.value.epoch == epoch)
      || (MayStayUnset(s, x) && epoch == None)
  {
    hide CustodyFold, Delivery, MayStayUnset;
    if t :| Redelivery(s, t) && CustodyFold(t, x).epoch == epoch {
      TagEnds(s, t, x);
    }
    if c :| StatusContender(s, x, c) && c.value.value.epoch == epoch {
      StatusContenderReachable(s, x, c);
    }
    if n, d :| TagMayStay(s, x, n, d) && d.value.value.epoch == epoch {
      TagReachable(s, x, n, d);
    }
    if MayStayUnset(s, x) && epoch == None {
      var t := UnsetReachable(s, x);
    }
  }

  lemma TagEnds(s: seq<Record>, t: seq<Record>, x: UID)
    requires Delivery(s) && Redelivery(s, t)
    ensures var epoch := CustodyFold(t, x).epoch;
      || (exists c :: StatusContender(s, x, c) && c.value.value.epoch == epoch)
      || (exists n, d :: TagMayStay(s, x, n, d) && d.value.value.epoch == epoch)
      || (MayStayUnset(s, x) && epoch == None)
  {
    hide CustodyFold, MayStayUnset;
    var epoch := CustodyFold(t, x).epoch;
    var c := EndsFor(s, t, x);
    if c.Some? && c.value.value.value.epoch != epoch {
      assert !IsSelf(c.value) && epoch.Some?;
      var d :| d in s && Of(d, x) && CustodyLane(d) && d.value.Some? && d.value.value.epoch == epoch;
      if d.addr.editID.Less(c.value.addr.editID) {
        assert TagMayStay(s, x, c.value, d);
      } else {
        assert StatusContender(s, x, d);
      }
    }
  }

  ghost predicate EpochOrderFree(s: seq<Record>, x: UID) {
    forall t, u | Redelivery(s, t) && Redelivery(s, u) :: CustodyFold(t, x).epoch == CustodyFold(u, x).epoch
  }

  /** Exactly when the tag does not depend on delivery: the contenders carry the same tag, an issuer among them that
      carries none finds none on any custody-lane record, and none carries one where the status can stay unset. */
  lemma EpochOrderFreeIff(s: seq<Record>, x: UID)
    requires Delivery(s)
    ensures EpochOrderFree(s, x) <==>
      && (forall c, d | StatusContender(s, x, c) && StatusContender(s, x, d) :: c.value.value.epoch == d.value.value.epoch)
      && (forall n | StatusContender(s, x, n) && !IsSelf(n) && n.value.value.epoch.None? ::
            forall d | d in s && Of(d, x) && CustodyLane(d) :: d.value.value.epoch.None?)
      && (MayStayUnset(s, x) ==> forall c | StatusContender(s, x, c) :: c.value.value.epoch.None?)
  {
    hide CustodyFold, MayStayUnset;
    if EpochOrderFree(s, x) {
      forall c, d | StatusContender(s, x, c) && StatusContender(s, x, d)
        ensures c.value.value.epoch == d.value.value.epoch
      {
        StatusContenderReachable(s, x, c);
        StatusContenderReachable(s, x, d);
      }
      forall n, d | StatusContender(s, x, n) && !IsSelf(n) && n.value.value.epoch.None? && d in s && Of(d, x) && CustodyLane(d)
        ensures d.value.value.epoch.None?
      {
        StatusContenderReachable(s, x, n);
        if d.addr.editID.Less(n.addr.editID) {
          if TagMayStay(s, x, n, d) {
            TagReachable(s, x, n, d);
          }
        } else {
          assert StatusContender(s, x, d);
        }
      }
      if MayStayUnset(s, x) {
        var t := UnsetReachable(s, x);
        forall c | StatusContender(s, x, c) ensures c.value.value.epoch.None? {
          StatusContenderReachable(s, x, c);
        }
      }
    } else {
      var t, u :| Redelivery(s, t) && Redelivery(s, u) && CustodyFold(t, x).epoch != CustodyFold(u, x).epoch;
      TagEnds(s, t, x);
      TagEnds(s, u, x);
    }
  }

  /** In particular, an issuer's newest custody-lane record without a tag over an older one with a tag. */
  lemma EpochTagDiverges(s: seq<Record>, x: UID, n: Record, d: Record)
    requires Delivery(s) && NewestCustody(s, x, n) && !IsSelf(n) && n.value.value.epoch.None?
    requires d in s && Of(d, x) && CustodyLane(d) && d.value.value.epoch.Some?
    ensures SameRecords(s, [n] + s) && SameRecords(s, [d, n] + s)
    ensures forall a | a in [n] + s || a in [d, n] + s :: a.value.Some?
    ensures CustodyFold([n] + s, x).epoch == None && CustodyFold([d, n] + s, x).epoch == d.value.value.epoch
  {
    StatusContenderReachable(s, x, n);
    assert !SameEdit(d, n) || OneRecord(d, n);
    TagReachable(s, x, n, d);
  }

  // ---- what a member binding serves ----

  lemma ServedBy(s: seq<Record>, x: UID)
    requires Delivery(s) && Seen(s, x)
    ensures var items := FoldMembers(EMPTY, s).items;
      && x in items && CustodyFold(s, x).base.Some? && items[x] == Materialize(CustodyFold(s, x))
  {
    FoldIsCustodyFold(s, x);
    CacheAlwaysServes(EMPTY, s);
  }

  /** A served key is the one custody ends at; a reserved sentinel EditID (above the largest
      identifier) does not count as set, and then the base record's key shows. */
  lemma ServedKey(f: KeyField, s: seq<Record>, x: UID, n: Record, base: Record)
    requires Delivery(s) && NewestDeclaring(f, s, x, n) && NewestOf(s, x, base)
    requires IsSelf(n) || OnlyDeclaring(f, s, x, n)
    ensures var items := FoldMembers(EMPTY, s).items;
      && x in items && items[x].rest == base.value.value.rest
      && KeyOf(f, items[x]) == KeyOf(f, if n.addr.editID.IsSet() then n.value.value else base.value.value)
  {
    hide CustodyFold, Fold;
    assert Seen(s, x);
    ServedBy(s, x);
    BaseEndsAtNewest(s, x, base);
    KeyEndsAtNewest(f, s, x, n);
  }

  /** A served status is the one the issuer's newest record gives. */
  lemma ServedStatus(s: seq<Record>, x: UID, n: Record, base: Record)
    requires Delivery(s) && NewestCustody(s, x, n) && !IsSelf(n) && NewestOf(s, x, base)
    ensures var items := FoldMembers(EMPTY, s).items;
      x in items && items[x].status == (if n.addr.editID.IsSet() then n.value.value.status else base.value.value.status)
  {
    hide CustodyFold, Fold;
    assert Seen(s, x);
    ServedBy(s, x);
    BaseEndsAtNewest(s, x, base);
    StatusEndsAtIssuer(s, x, n);
  }

  // ---- exactly when what is served does not depend on delivery ----

  /** No EditID is one of the reserved sentinels. */
  ghost predicate NoSentinels(s: seq<Record>) {
    forall a | a in s :: a.addr.editID.IsSet()
  }

  /** What a binding serves for a member, or nothing declared. */
  ghost function Served(s: seq<Record>, x: UID): MemberEpoch {
    var items := FoldMembers(EMPTY, s).items;
    if x in items then items[x] else MemberEpoch(None, None, 0, None, [])
  }

  /** Custody where it holds something, the newest record otherwise. */
  lemma ServedFrom(s: seq<Record>, t: seq<Record>, x: UID, base: Record) returns (c: Option<Record>)
    requires Delivery(s) && NoSentinels(s) && NewestOf(s, x, base) && Redelivery(s, t)
    ensures forall f ::
      KeyOf(f, Served(t, x)) == if HeldKey(f, CustodyFold(t, x)).Some? then HeldKey(f, CustodyFold(t, x)) else KeyOf(f, base.value.value)
    ensures c.Some? ==> StatusContender(s, x, c.value) && SetStatus(CustodyFold(t, x), x, c.value)
    ensures c.None? ==> MayStayUnset(s, x) && CustodyFold(t, x).statusEdit == NIL && CustodyFold(t, x).epoch == None
    ensures Served(t, x).status == if c.Some? then c.value.value.value.status else base.value.value.status
    ensures Served(t, x).epoch == Shown(CustodyFold(t, x).epoch, base)
    ensures Served(t, x).rest == base.value.value.rest
  {
    hide CustodyFold, Fold;
    SameDelivery(s, t);
    assert base in t && Seen(t, x) && NewestOf(t, x, base);
    ServedBy(t, x);
    BaseEndsAtNewest(t, x, base);
    c := EndsFor(s, t, x);
    forall f: KeyField ensures HeldKey(f, CustodyFold(t, x)).Some? <==> Clock(f, CustodyFold(t, x)).IsSet() {
      var held := KeyEndsAtContender(f, t, x);
      assert held.Some? ==> held.value in s;
    }
    assert KeyOf(Signing, Served(t, x)) == Served(t, x).signingKey && KeyOf(Encrypting, Served(t, x)) == Served(t, x).encryptKey;
    assert Clock(Signing, CustodyFold(t, x)) == CustodyFold(t, x).signEdit;
    assert Clock(Encrypting, CustodyFold(t, x)) == CustodyFold(t, x).encryptEdit;
  }

  ghost function Shown(epoch: Option<seq<byte>>, base: Record): Option<seq<byte>>
    requires base.value.Some?
  {
    if epoch.Some? then epoch else base.value.value.epoch
  }

  lemma ServedKeyOrderFreeIff(f: KeyField, s: seq<Record>, x: UID, base: Record)
    requires Delivery(s) && NoSentinels(s) && NewestOf(s, x, base)
    ensures (forall t, u | Redelivery(s, t) && Redelivery(s, u) :: KeyOf(f, Served(t, x)) == KeyOf(f, Served(u, x))) <==>
      forall c, d | KeyContender(f, s, x, c) && KeyContender(f, s, x, d) :: KeyOf(f, c.value.value) == KeyOf(f, d.value.value)
  {
    hide CustodyFold, Served;
    forall t | Redelivery(s, t)
      ensures KeyOf(f, Served(t, x)) == if HeldKey(f, CustodyFold(t, x)).Some? then HeldKey(f, CustodyFold(t, x)) else KeyOf(f, base.value.value)
      ensures HeldKey(f, CustodyFold(t, x)).None? <==> forall a | a in s && Of(a, x) :: !Declares(f, a)
    {
      var c := ServedFrom(s, t, x, base);
      var held := KeyEndsAtContender(f, t, x);
      assert held.Some? ==> held.value in s && Declares(f, held.value) && Of(held.value, x);
    }
    KeyOrderFreeIff(f, s, x);
  }

  /** A contender's status and tag can be what is served. */
  lemma ServedContender(s: seq<Record>, x: UID, base: Record, c: Record)
    requires Delivery(s) && NoSentinels(s) && NewestOf(s, x, base) && StatusContender(s, x, c)
    ensures Redelivery(s, [c] + s)
    ensures Served([c] + s, x).status == c.value.value.status && Served([c] + s, x).epoch == Shown(c.value.value.epoch, base)
  {
    hide CustodyFold, Served;
    StatusContenderReachable(s, x, c);
    var held := ServedFrom(s, [c] + s, x, base);
  }

  /** Where custody can stay unset, so can the newest record's. */
  lemma ServedUnset(s: seq<Record>, x: UID, base: Record) returns (t: seq<Record>)
    requires Delivery(s) && NoSentinels(s) && NewestOf(s, x, base) && MayStayUnset(s, x)
    ensures Redelivery(s, t)
    ensures Served(t, x).status == base.value.value.status && Served(t, x).epoch == base.value.value.epoch
  {
    hide CustodyFold, Served;
    t := UnsetReachable(s, x);
    var held := ServedFrom(s, t, x, base);
  }

  ghost predicate ServedStatusOrderFree(s: seq<Record>, x: UID) {
    forall t, u | Redelivery(s, t) && Redelivery(s, u) :: Served(t, x).status == Served(u, x).status
  }

  /** The served status, likewise; the newest record's shows where custody can stay unset. */
  lemma ServedStatusOrderFreeIff(s: seq<Record>, x: UID, base: Record)
    requires Delivery(s) && NoSentinels(s) && NewestOf(s, x, base)
    ensures ServedStatusOrderFree(s, x) <==>
      && (forall c, d | StatusContender(s, x, c) && StatusContender(s, x, d) :: c.value.value.status == d.value.value.status)
      && (MayStayUnset(s, x) ==> forall c | StatusContender(s, x, c) :: c.value.value.status == base.value.value.status)
  {
    hide Served, MayStayUnset;
    if ServedStatusOrderFree(s, x) {
      forall c, d | StatusContender(s, x, c) && StatusContender(s, x, d)
        ensures c.value.value.status == d.value.value.status
      {
        ServedContender(s, x, base, c);
        ServedContender(s, x, base, d);
      }
      if MayStayUnset(s, x) {
        var t := ServedUnset(s, x, base);
        forall c | StatusContender(s, x, c) ensures c.value.value.status == base.value.value.status {
          ServedContender(s, x, base, c);
        }
      }
    } else {
      var t, u :| Redelivery(s, t) && Redelivery(s, u) && Served(t, x).status != Served(u, x).status;
      ServedStatusEnds(s, t, x, base);
      ServedStatusEnds(s, u, x, base);
    }
  }

  lemma ServedStatusEnds(s: seq<Record>, t: seq<Record>, x: UID, base: Record)
    requires Delivery(s) && NoSentinels(s) && NewestOf(s, x, base) && Redelivery(s, t)
    ensures var status := Served(t, x).status;
      || (exists c :: StatusContender(s, x, c) && c.value.value.status == status)
      || (MayStayUnset(s, x) && base.value.value.status == status)
  {
    hide CustodyFold, Served, MayStayUnset;
    var c := ServedFrom(s, t, x, base);
  }

  ghost predicate ServedEpochOrderFree(s: seq<Record>, x: UID) {
    forall t, u | Redelivery(s, t) && Redelivery(s, u) :: Served(t, x).epoch == Served(u, x).epoch
  }

  /** And the served epoch tag. */
  lemma ServedEpochOrderFreeIff(s: seq<Record>, x: UID, base: Record)
    requires Delivery(s) && NoSentinels(s) && NewestOf(s, x, base)
    ensures ServedEpochOrderFree(s, x) <==>
      && (forall c, d | StatusContender(s, x, c) && StatusContender(s, x, d) ::
            Shown(c.value.value.epoch, base) == Shown(d.value.value.epoch, base))
      && (forall n, d | TagMayStay(s, x, n, d) :: d.value.value.epoch == base.value.value.epoch)
      && (MayStayUnset(s, x) ==> forall c | StatusContender(s, x, c) :: Shown(c.value.value.epoch, base) == base.value.value.epoch)
  {
    hide Served, MayStayUnset;
    if ServedEpochOrderFree(s, x) {
      forall c, d | StatusContender(s, x, c) && StatusContender(s, x, d)
        ensures Shown(c.value.value.epoch, base) == Shown(d.value.value.epoch, base)
      {
        ServedContender(s, x, base, c);
        ServedContender(s, x, base, d);
      }
      forall n, d | TagMayStay(s, x, n, d)
        ensures d.value.value.epoch == base.value.value.epoch
      {
        ServedTagStays(s, x, base, n, d);
      }
      if MayStayUnset(s, x) {
        var t := ServedUnset(s, x, base);
        forall c | StatusContender(s, x, c) ensures Shown(c.value.value.epoch, base) == base.value.value.epoch {
          ServedContender(s, x, base, c);
        }
      }
    } else {
      var t, u :| Redelivery(s, t) && Redelivery(s, u) && Served(t, x).epoch != Served(u, x).epoch;
      ServedTagEnds(s, t, x, base);
      ServedTagEnds(s, u, x, base);
    }
  }

  lemma ServedTagStays(s: seq<Record>, x: UID, base: Record, n: Record, d: Record)
    requires Delivery(s) && NoSentinels(s) && NewestOf(s, x, base) && TagMayStay(s, x, n, d)
    ensures Redelivery(s, [d, n] + s) && Served([d, n] + s, x).epoch == d.value.value.epoch
    ensures Redelivery(s, [n] + s) && Served([n] + s, x).epoch == base.value.value.epoch
  {
    hide CustodyFold, Served;
    ServedContender(s, x, base, n);
    TagReachable(s, x, n, d);
    var held := ServedFrom(s, [d, n] + s, x, base);
  }

  lemma ServedTagEnds(s: seq<Record>, t: seq<Record>, x: UID, base: Record)
    requires Delivery(s) && NoSentinels(s) && NewestOf(s, x, base) && Redelivery(s, t)
    ensures var epoch := Served(t, x).epoch;
      || (exists c :: StatusContender(s, x, c) && Shown(c.value.value.epoch, base) == epoch)
      || (MayStayUnset(s, x) && base.value.value.epoch == epoch)
      || (exists n, d :: TagMayStay(s, x, n, d) && d.value.value.epoch == epoch)
  {
    hide CustodyFold, Served, MayStayUnset, StatusContender;
    TagEnds(s, t, x);
    var c := ServedFrom(s, t, x, base);
  }
}
