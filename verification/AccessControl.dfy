/** ResolveAccess: a member's access on a channel, the most restrictive grant up the parent chain,
    failing closed on a broken, cyclic or over-deep chain. */
module AccessControl {
  import opened Bytes
  import opened Uids

  const MAX_PARENT_DEPTH := 64

  /** An open enum: the declared levels are 0, 1, 3, 4, 6, 8 and 10, but any int32 can ride the wire. */
  type Access = int

  const NOT_ALLOWED: Access := 0

  datatype AccessGrant = AccessGrant(member: Option<UID>, access: Access)

  /** Nil grant lists read as empty. */
  datatype ChannelEpoch = ChannelEpoch(memberGrants: seq<AccessGrant>, defaultGrants: seq<AccessGrant>, parent: Option<UID>)

  type Lookup = UID -> Option<ChannelEpoch>

  // ---- one channel ----

  predicate GrantsTo(grant: AccessGrant, memberID: UID) {
    grant.member == Some(memberID)
  }

  /** The first explicit grant, else the first default grant, else nothing. */
  ghost predicate IsGrant(memberID: UID, epoch: ChannelEpoch, access: Access) {
    || (exists i | 0 <= i < |epoch.memberGrants| :: FirstGrant(memberID, epoch.memberGrants, i) && access == epoch.memberGrants[i].access)
    || ((forall i | 0 <= i < |epoch.memberGrants| :: epoch.memberGrants[i].member != Some(memberID))
        && access == if epoch.defaultGrants == [] then 0 else epoch.defaultGrants[0].access)
  }

  ghost predicate FirstGrant(memberID: UID, grants: seq<AccessGrant>, i: nat)
    requires i < |grants|
  {
    grants[i].member == Some(memberID) && forall j | 0 <= j < i :: grants[j].member != Some(memberID)
  }

  function Scan(memberID: UID, grants: seq<AccessGrant>): Option<Access> {
    if grants == [] then None
    else if GrantsTo(grants[0], memberID) then Some(grants[0].access)
    else Scan(memberID, grants[1..])
  }

  function MemberGrant(memberID: UID, epoch: ChannelEpoch): Access {
    match Scan(memberID, epoch.memberGrants)
    case Some(access) => access
    case None => if epoch.defaultGrants == [] then NOT_ALLOWED else epoch.defaultGrants[0].access
  }

  method ResolveMemberGrants(memberID: UID, epoch: ChannelEpoch) returns (access: Access)
    ensures access == MemberGrant(memberID, epoch)
    ensures IsGrant(memberID, epoch, access)
  {
    var i := 0;
    while i < |epoch.memberGrants|
      invariant i <= |epoch.memberGrants|
      invariant forall j | 0 <= j < i :: !GrantsTo(epoch.memberGrants[j], memberID)
      invariant Scan(memberID, epoch.memberGrants) == Scan(memberID, epoch.memberGrants[i..])
    {
      if GrantsTo(epoch.memberGrants[i], memberID) {
        assert FirstGrant(memberID, epoch.memberGrants, i);
        return epoch.memberGrants[i].access;
      }
      i := i + 1;
    }
    if epoch.defaultGrants != [] {
      return epoch.defaultGrants[0].access;
    }
    return NOT_ALLOWED;
  }

  // ---- the chain ----

  /** The parent this epoch names; a nil UID names none. */
  function ParentOf(epoch: ChannelEpoch): Option<UID> {
    if epoch.parent.Some? && !epoch.parent.value.IsNil() then epoch.parent else None
  }

  /** The epochs from the channel's own upward, each the lookup of the parent before it. */
  predicate IsChain(lookup: Lookup, chain: seq<ChannelEpoch>) {
    && chain != []
    && forall i | 0 <= i < |chain| - 1 :: Links(lookup, chain[i], chain[i + 1])
  }

  predicate Links(lookup: Lookup, child: ChannelEpoch, parent: ChannelEpoch) {
    ParentOf(child).Some? && lookup(ParentOf(child).value) == Some(parent)
  }

  /** A whole chain: its top names no parent. */
  predicate IsComplete(lookup: Lookup, chain: seq<ChannelEpoch>) {
    IsChain(lookup, chain) && ParentOf(chain[|chain| - 1]).None?
  }

  /** Within 64 hops; after exactly 64 the parent must be absent, not merely the nil UID. */
  ghost predicate WithinDepth(chain: seq<ChannelEpoch>)
    requires chain != []
  {
    |chain| - 1 < 64 || (|chain| - 1 == 64 && chain[|chain| - 1].parent.None?)
  }

  function MinGrant(memberID: UID, chain: seq<ChannelEpoch>): Access
    requires chain != []
  {
    if |chain| == 1 then MemberGrant(memberID, chain[0])
    else MinAccess(MemberGrant(memberID, chain[0]), MinGrant(memberID, chain[1..]))
  }

  function MinAccess(a: Access, b: Access): Access {
    if a < b then a else b
  }

  /** The walk from an epoch already `depth` hops up: its minimum, or None where it fails closed. */
  function Walk(memberID: UID, epoch: ChannelEpoch, lookup: Lookup, depth: nat): Option<Access>
    requires depth <= MAX_PARENT_DEPTH
    decreases MAX_PARENT_DEPTH - depth
  {
    var level := MemberGrant(memberID, epoch);
    if epoch.parent.None? then Some(level)
    else if depth >= MAX_PARENT_DEPTH then None
    else if epoch.parent.value.IsNil() then Some(level)
    else if lookup(epoch.parent.value).None? then None
    else
      match Walk(memberID, lookup(epoch.parent.value).value, lookup, depth + 1)
      case None => None
      case Some(rest) => Some(MinAccess(level, rest))
  }

  function Resolved(memberID: UID, epoch: Option<ChannelEpoch>, lookup: Lookup): Access {
    if epoch.None? then NOT_ALLOWED else
    match Walk(memberID, epoch.value, lookup, 0)
    case None => NOT_ALLOWED
    case Some(level) => level
  }

  method ResolveAccess(memberID: UID, channelEpoch: Option<ChannelEpoch>, lookup: Lookup) returns (level: Access)
    ensures level == Resolved(memberID, channelEpoch, lookup)
  {
    if channelEpoch.None? {
      return NOT_ALLOWED;
    }
    level := ResolveMemberGrants(memberID, channelEpoch.value);
    var parent := channelEpoch.value.parent;
    ghost var at, below := channelEpoch.value, None;
    var depth := 0;
    while parent.Some?
      invariant depth <= MAX_PARENT_DEPTH && parent == at.parent
      invariant level == Lower(below, MemberGrant(memberID, at))
      invariant Walk(memberID, channelEpoch.value, lookup, 0) == LowerWalk(below, Walk(memberID, at, lookup, depth))
      decreases MAX_PARENT_DEPTH - depth, parent.Some?
    {
      if depth >= MAX_PARENT_DEPTH {
        return NOT_ALLOWED;
      }
      if parent.value.IsNil() {
        break;
      }
      var parentEpoch := lookup(parent.value);
      if parentEpoch.None? {
        return NOT_ALLOWED;
      }
      var parentLevel := ResolveMemberGrants(memberID, parentEpoch.value);
      below := Some(level);
      level := MinAccess(level, parentLevel);
      parent := parentEpoch.value.parent;
      at := parentEpoch.value;
      depth := depth + 1;
    }
  }

  /** The level so far, over what was walked before. */
  ghost function Lower(below: Option<Access>, level: Access): Access {
    if below.None? then level else MinAccess(below.value, level)
  }

  ghost function LowerWalk(below: Option<Access>, rest: Option<Access>): Option<Access> {
    if rest.None? then None else Some(Lower(below, rest.value))
  }

  method HasAccess(memberID: UID, required: Access, channelEpoch: Option<ChannelEpoch>, lookup: Lookup) returns (has: bool)
    ensures has <==> Resolved(memberID, channelEpoch, lookup) >= required
  {
    var level := ResolveAccess(memberID, channelEpoch, lookup);
    has := level >= required;
  }

  // ---- what it resolves to ----

  /** The walk succeeds exactly on a complete chain within the depth, and gives its minimum. */
  lemma {:induction false} WalkChain(memberID: UID, lookup: Lookup, chain: seq<ChannelEpoch>, depth: nat)
    requires IsComplete(lookup, chain) && depth <= MAX_PARENT_DEPTH
    ensures Walk(memberID, chain[0], lookup, depth) ==
      if depth + |chain| - 1 < MAX_PARENT_DEPTH || (depth + |chain| - 1 == MAX_PARENT_DEPTH && chain[|chain| - 1].parent.None?)
      then Some(MinGrant(memberID, chain)) else None
    decreases |chain|
  {
    if |chain| > 1 {
      assert Links(lookup, chain[0], chain[1]);
      if depth < MAX_PARENT_DEPTH {
        assert forall i | 0 <= i < |chain| - 2 :: chain[1..][i] == chain[i + 1] && Links(lookup, chain[i + 1], chain[i + 2]);
        WalkChain(memberID, lookup, chain[1..], depth + 1);
      }
    }
  }

  lemma {:induction false} WalkHasChain(memberID: UID, epoch: ChannelEpoch, lookup: Lookup, depth: nat) returns (chain: seq<ChannelEpoch>)
    requires depth <= MAX_PARENT_DEPTH && Walk(memberID, epoch, lookup, depth).Some?
    ensures IsComplete(lookup, chain) && chain[0] == epoch
    decreases MAX_PARENT_DEPTH - depth
  {
    chain := [epoch];
    if ParentOf(epoch).Some? {
      var up := lookup(epoch.parent.value).value;
      var rest := WalkHasChain(memberID, up, lookup, depth + 1);
      chain := [epoch] + rest;
      assert Links(lookup, epoch, up);
      forall i | 0 <= i < |chain| - 1 ensures Links(lookup, chain[i], chain[i + 1]) {
        if i > 0 {
          assert Links(lookup, rest[i - 1], rest[i]);
        }
      }
    }
  }

  /** No grant on the chain is lower, and one is as low. */
  lemma {:induction false} MinGrantIsLeast(memberID: UID, chain: seq<ChannelEpoch>)
    requires chain != []
    ensures forall i | 0 <= i < |chain| :: MinGrant(memberID, chain) <= MemberGrant(memberID, chain[i])
    ensures exists i | 0 <= i < |chain| :: MinGrant(memberID, chain) == MemberGrant(memberID, chain[i])
    decreases |chain|
  {
    if |chain| > 1 {
      MinGrantIsLeast(memberID, chain[1..]);
      forall i | 0 <= i < |chain| ensures MinGrant(memberID, chain) <= MemberGrant(memberID, chain[i]) {
        if i > 0 {
          assert chain[i] == chain[1..][i - 1];
        }
      }
      var j :| 0 <= j < |chain| - 1 && MinGrant(memberID, chain[1..]) == MemberGrant(memberID, chain[1..][j]);
      assert chain[j + 1] == chain[1..][j];
    }
  }

  /** Where every ancestor resolves and the chain ends within 64 hops, the least of the member's grants on the
      channels of the whole chain: none is lower, and it is one of them. */
  lemma ResolvesToMinimum(memberID: UID, lookup: Lookup, chain: seq<ChannelEpoch>)
    requires IsComplete(lookup, chain) && WithinDepth(chain)
    ensures Resolved(memberID, Some(chain[0]), lookup) == MinGrant(memberID, chain)
    ensures forall i, access | 0 <= i < |chain| && IsGrant(memberID, chain[i], access) ::
      Resolved(memberID, Some(chain[0]), lookup) <= access
    ensures exists i | 0 <= i < |chain| :: IsGrant(memberID, chain[i], Resolved(memberID, Some(chain[0]), lookup))
  {
    WalkChain(memberID, lookup, chain, 0);
    MinGrantIsLeast(memberID, chain);
    forall i | 0 <= i < |chain| ensures IsGrant(memberID, chain[i], MemberGrant(memberID, chain[i])) {
      GrantIs(memberID, chain[i]);
    }
    forall i, access | 0 <= i < |chain| && IsGrant(memberID, chain[i], access) ensures access == MemberGrant(memberID, chain[i]) {
      GrantIsUnique(memberID, chain[i], access, MemberGrant(memberID, chain[i]));
    }
  }

  lemma GrantIs(memberID: UID, epoch: ChannelEpoch)
    ensures IsGrant(memberID, epoch, MemberGrant(memberID, epoch))
  {
    ScanFinds(memberID, epoch.memberGrants);
  }

  lemma {:induction false} ScanFinds(memberID: UID, grants: seq<AccessGrant>)
    ensures match Scan(memberID, grants)
      case Some(access) => exists i | 0 <= i < |grants| :: FirstGrant(memberID, grants, i) && access == grants[i].access
      case None => forall i | 0 <= i < |grants| :: !GrantsTo(grants[i], memberID)
    decreases |grants|
  {
    if grants != [] && !GrantsTo(grants[0], memberID) {
      ScanFinds(memberID, grants[1..]);
      if Scan(memberID, grants).Some? {
        var i :| 0 <= i < |grants| - 1 && FirstGrant(memberID, grants[1..], i) && Scan(memberID, grants).value == grants[1..][i].access;
        assert FirstGrant(memberID, grants, i + 1) by {
          assert forall j | 0 < j < i + 1 :: grants[j] == grants[1..][j - 1];
        }
      } else {
        assert forall i | 0 < i < |grants| :: grants[i] == grants[1..][i - 1];
      }
    }
  }

  lemma GrantIsUnique(memberID: UID, epoch: ChannelEpoch, a: Access, b: Access)
    requires IsGrant(memberID, epoch, a) && IsGrant(memberID, epoch, b)
    ensures a == b
  {
  }

  /** A chain is determined by its channel, as far as it goes. */
  lemma {:induction false} ChainsAgree(lookup: Lookup, a: seq<ChannelEpoch>, b: seq<ChannelEpoch>)
    requires IsChain(lookup, a) && IsComplete(lookup, b) && a[0] == b[0]
    ensures a <= b
    decreases |a|
  {
    if |a| > 1 {
      assert Links(lookup, a[0], a[1]);
      assert |b| > 1 && Links(lookup, b[0], b[1]);
      ChainTail(lookup, a);
      ChainTail(lookup, b);
      ChainsAgree(lookup, a[1..], b[1..]);
      assert a == [a[0]] + a[1..] && b == [b[0]] + b[1..];
    }
  }

  lemma ChainTail(lookup: Lookup, chain: seq<ChannelEpoch>)
    requires IsChain(lookup, chain) && |chain| > 1
    ensures IsChain(lookup, chain[1..])
  {
    forall i | 0 <= i < |chain| - 2 ensures Links(lookup, chain[1..][i], chain[1..][i + 1]) {
      assert Links(lookup, chain[i + 1], chain[i + 2]);
    }
  }

  lemma {:induction false} ChainDrop(lookup: Lookup, chain: seq<ChannelEpoch>, i: nat)
    requires IsChain(lookup, chain) && i < |chain|
    ensures IsChain(lookup, chain[i..]) && chain[i..][0] == chain[i]
    decreases i
  {
    if i > 0 {
      ChainDrop(lookup, chain, i - 1);
      ChainTail(lookup, chain[i - 1..]);
      assert chain[i - 1..][1..] == chain[i..];
    }
  }

  lemma LinkedOnwards(lookup: Lookup, chain: seq<ChannelEpoch>, i: nat)
    requires IsComplete(lookup, chain) && i < |chain|
    ensures ParentOf(chain[i]).Some? ==> lookup(ParentOf(chain[i]).value).Some?
  {
    if i + 1 < |chain| {
      assert Links(lookup, chain[i], chain[i + 1]);
    }
  }

  /** A chain too deep is refused, whether or not it ever ends. */
  lemma TooDeepIsRefused(memberID: UID, lookup: Lookup, chain: seq<ChannelEpoch>)
    requires IsChain(lookup, chain) && !WithinDepth(chain)
    ensures Resolved(memberID, Some(chain[0]), lookup) == 0
  {
    if Walk(memberID, chain[0], lookup, 0).Some? {
      var whole := WalkHasChain(memberID, chain[0], lookup, 0);
      WalkChain(memberID, lookup, whole, 0);
      ChainsAgree(lookup, chain, whole);
      assert false;
    }
  }

  /** The walk fails closed exactly where the channel has no whole chain within the depth. */
  lemma FailsClosedIff(memberID: UID, lookup: Lookup, epoch: ChannelEpoch)
    ensures Walk(memberID, epoch, lookup, 0).Some? <==>
      exists chain :: IsComplete(lookup, chain) && chain[0] == epoch && WithinDepth(chain)
  {
    if Walk(memberID, epoch, lookup, 0).Some? {
      var chain := WalkHasChain(memberID, epoch, lookup, 0);
      WalkChain(memberID, lookup, chain, 0);
    }
    if chain :| IsComplete(lookup, chain) && chain[0] == epoch && WithinDepth(chain) {
      WalkChain(memberID, lookup, chain, 0);
    }
  }

  /** A missing ancestor anywhere up the chain. */
  lemma BrokenIsRefused(memberID: UID, lookup: Lookup, chain: seq<ChannelEpoch>)
    requires IsChain(lookup, chain)
    requires ParentOf(chain[|chain| - 1]).Some? && lookup(ParentOf(chain[|chain| - 1]).value).None?
    ensures Resolved(memberID, Some(chain[0]), lookup) == 0
  {
    if Walk(memberID, chain[0], lookup, 0).Some? {
      var whole := WalkHasChain(memberID, chain[0], lookup, 0);
      ChainsAgree(lookup, chain, whole);
      LinkedOnwards(lookup, whole, |chain| - 1);
      assert false;
    }
  }

  /** An epoch that is its own ancestor. */
  lemma CycleIsRefused(memberID: UID, lookup: Lookup, chain: seq<ChannelEpoch>, i: nat, j: nat)
    requires IsChain(lookup, chain) && i < j < |chain| && chain[i] == chain[j]
    ensures Resolved(memberID, Some(chain[0]), lookup) == 0
  {
    if Walk(memberID, chain[0], lookup, 0).Some? {
      var whole := WalkHasChain(memberID, chain[0], lookup, 0);
      ChainsAgree(lookup, chain, whole);
      ChainDrop(lookup, whole, i);
      ChainDrop(lookup, whole, j);
      ChainsAgree(lookup, whole[i..], whole[j..]);
      assert false;
    }
  }

  // ---- a further parent ----

  lemma {:induction false} PrefixBounds(memberID: UID, a: seq<ChannelEpoch>, b: seq<ChannelEpoch>)
    requires a != [] && |a| <= |b|
    requires forall i | 0 <= i < |a| :: MemberGrant(memberID, a[i]) == MemberGrant(memberID, b[i])
    ensures MinGrant(memberID, b) <= MinGrant(memberID, a)
    decreases |a|
  {
    if |a| > 1 {
      PrefixBounds(memberID, a[1..], b[1..]);
    }
  }

  /** Giving the topmost channel a further parent raises the result exactly when the minimum was a negative level off
      the wire, below NotAllowed, and the new chain fails closed; never where no grant is negative. */
  lemma FurtherParentRaisesIff(memberID: UID, lookup: Lookup, chain: seq<ChannelEpoch>,
                               lookup': Lookup, chain': seq<ChannelEpoch>, parent: UID)
    requires IsComplete(lookup, chain) && WithinDepth(chain)
    requires IsChain(lookup', chain') && |chain'| == |chain|
    requires chain'[..|chain| - 1] == chain[..|chain| - 1]
    requires chain'[|chain| - 1] == chain[|chain| - 1].(parent := Some(parent))
    ensures Resolved(memberID, Some(chain'[0]), lookup') > Resolved(memberID, Some(chain[0]), lookup)
       <==> MinGrant(memberID, chain) < NOT_ALLOWED && Walk(memberID, chain'[0], lookup', 0).None?
    ensures (forall i | 0 <= i < |chain| :: MemberGrant(memberID, chain[i]) >= NOT_ALLOWED) ==>
      Resolved(memberID, Some(chain'[0]), lookup') <= Resolved(memberID, Some(chain[0]), lookup)
  {
    ResolvesToMinimum(memberID, lookup, chain);
    if forall i | 0 <= i < |chain| :: MemberGrant(memberID, chain[i]) >= NOT_ALLOWED {
      MinGrantAtLeast(memberID, chain, NOT_ALLOWED);
    }
    if Walk(memberID, chain'[0], lookup', 0).Some? {
      var whole := WalkHasChain(memberID, chain'[0], lookup', 0);
      ChainsAgree(lookup', chain', whole);
      WalkChain(memberID, lookup', whole, 0);
      forall i | 0 <= i < |chain|
        ensures MemberGrant(memberID, chain[i]) == MemberGrant(memberID, whole[i])
      {
        assert whole[i] == chain'[i];
        if i < |chain| - 1 {
          assert chain'[..|chain| - 1][i] == chain[..|chain| - 1][i];
        }
      }
      PrefixBounds(memberID, chain, whole);
    }
  }

  lemma {:induction false} MinGrantAtLeast(memberID: UID, chain: seq<ChannelEpoch>, level: Access)
    requires chain != [] && forall i | 0 <= i < |chain| :: MemberGrant(memberID, chain[i]) >= level
    ensures MinGrant(memberID, chain) >= level
    decreases |chain|
  {
    if |chain| > 1 {
      MinGrantAtLeast(memberID, chain[1..], level);
    }
  }

  /** A channel whose default grant is -1 rises to NotAllowed under a parent that does not resolve. */
  lemma FurtherParentCanRaise(memberID: UID, parent: UID)
    requires !parent.IsNil()
    ensures var root := ChannelEpoch([], [AccessGrant(None, -1)], None);
      && IsComplete(_ => None, [root]) && WithinDepth([root])
      && Resolved(memberID, Some(root), _ => None) == -1
      && Resolved(memberID, Some(root.(parent := Some(parent))), _ => None) == NOT_ALLOWED
  {
    var root := ChannelEpoch([], [AccessGrant(None, -1)], None);
    assert MemberGrant(memberID, root) == -1;
  }
}
