/** VerifyCoSignatureQuorum: distinct declared signers, each with a valid signature, and enough of
    them. */
module Quorum {
  import opened Bytes
  import opened Uids

  datatype PubKey = PubKey(cryptoKit: UID, bytes: seq<byte>)

  /** A None member stands for a missing MemberTag. */
  datatype CoSignature = CoSignature(member: Option<UID>, signature: seq<byte>)

  datatype QuorumError = UndeclaredSigner | EmptySignature | InvalidSignature | TooFewSignatures

  /** What a check is given; a None signature is a nil one. */
  datatype Check = Check(signatures: seq<Option<CoSignature>>, digest: seq<byte>, signerKeys: map<UID, PubKey>,
                         verify: (PubKey, seq<byte>, seq<byte>) -> bool)

  predicate Names(c: Check, i: nat)
    requires i < |c.signatures|
  {
    c.signatures[i].Some? && c.signatures[i].value.member.Some?
  }

  function Signer(c: Check, i: nat): UID
    requires i < |c.signatures| && Names(c, i)
  {
    c.signatures[i].value.member.value
  }

  predicate Valid(c: Check, i: nat)
    requires i < |c.signatures| && Names(c, i)
  {
    && Signer(c, i) in c.signerKeys && c.signatures[i].value.signature != []
    && c.verify(c.signerKeys[Signer(c, i)], c.signatures[i].value.signature, c.digest)
  }

  /** No earlier signature names the same signer. */
  predicate First(c: Check, i: nat)
    requires i < |c.signatures| && Names(c, i)
  {
    forall j: nat | j < i && Names(c, j) :: Signer(c, j) != Signer(c, i)
  }

  /** What the i-th signature is refused for, all earlier ones being good. */
  function FaultAt(c: Check, i: nat): Option<QuorumError>
    requires i < |c.signatures|
  {
    if !Names(c, i) then None
    else if Signer(c, i) !in c.signerKeys then Some(UndeclaredSigner)
    else if !First(c, i) then None
    else if c.signatures[i].value.signature == [] then Some(EmptySignature)
    else if !Valid(c, i) then Some(InvalidSignature)
    else None
  }

  function Fault(c: Check, n: nat): Option<QuorumError>
    requires n <= |c.signatures|
  {
    if n == 0 then None else if Fault(c, n - 1).Some? then Fault(c, n - 1) else FaultAt(c, n - 1)
  }

  /** The distinct signers among the first n signatures, by first appearance. */
  function Signers(c: Check, n: nat): seq<UID>
    requires n <= |c.signatures|
  {
    if n == 0 then []
    else Signers(c, n - 1) + (if Names(c, n - 1) && First(c, n - 1) then [Signer(c, n - 1)] else [])
  }

  /** No threshold asks for every declared signer, and nothing asks for fewer than one. */
  function Needed(c: Check, required: int): nat {
    var all := if required <= 0 then |c.signerKeys| else required;
    if all < 1 then 1 else all
  }

  function Verdict(c: Check, required: int): Result<seq<UID>, QuorumError> {
    var n := |c.signatures|;
    if Fault(c, n).Some? then Err(Fault(c, n).value)
    else if |Signers(c, n)| < Needed(c, required) then Err(TooFewSignatures)
    else Ok(Signers(c, n))
  }

  method VerifyCoSignatureQuorum(c: Check, required: int) returns (r: Result<seq<UID>, QuorumError>)
    ensures r == Verdict(c, required)
  {
    var verified: seq<UID> := [];
    var seen: set<UID> := {};
    for i := 0 to |c.signatures|
      invariant Fault(c, i) == None && verified == Signers(c, i)
      invariant forall id :: id in seen <==> id in verified
      invariant forall id :: id in verified <==> exists j: nat | j < i && Names(c, j) :: Signer(c, j) == id
    {
      if !Names(c, i) {
        continue;
      }
      var signerID := Signer(c, i);
      if signerID !in c.signerKeys {
        FaultStays(c, i + 1, |c.signatures|);
        return Err(UndeclaredSigner);
      }
      if signerID in seen {
        continue;
      }
      if c.signatures[i].value.signature == [] {
        FaultStays(c, i + 1, |c.signatures|);
        return Err(EmptySignature);
      }
      if !c.verify(c.signerKeys[signerID], c.signatures[i].value.signature, c.digest) {
        FaultStays(c, i + 1, |c.signatures|);
        return Err(InvalidSignature);
      }
      seen := seen + {signerID};
      verified := verified + [signerID];
    }
    var needed := required;
    if needed <= 0 {
      needed := |c.signerKeys|;
    }
    if needed < 1 {
      needed := 1;
    }
    if |verified| < needed {
      return Err(TooFewSignatures);
    }
    return Ok(verified);
  }

  lemma {:induction false} FaultStays(c: Check, i: nat, n: nat)
    requires i <= n <= |c.signatures| && Fault(c, i).Some?
    ensures Fault(c, n) == Fault(c, i)
    decreases n
  {
    if i < n {
      FaultStays(c, i, n - 1);
    }
  }

  // ---- what a passing check means ----

  predicate Distinct(s: seq<UID>) {
    forall i, j | 0 <= i < j < |s| :: s[i] != s[j]
  }

  /** The i-th signature names this signer. */
  ghost predicate SignedBy(c: Check, i: nat, id: UID) {
    i < |c.signatures| && c.signatures[i].Some? && c.signatures[i].value.member == Some(id)
  }

  /** And verifies, under the key declared for it, over the digest. */
  ghost predicate Proves(c: Check, i: nat, id: UID) {
    && SignedBy(c, i, id) && id in c.signerKeys && c.signatures[i].value.signature != []
    && c.verify(c.signerKeys[id], c.signatures[i].value.signature, c.digest)
  }

  lemma {:induction false} SignersAreNamed(c: Check, n: nat)
    requires n <= |c.signatures|
    ensures forall id :: id in Signers(c, n) <==> exists j: nat | j < n && Names(c, j) :: Signer(c, j) == id
    ensures Distinct(Signers(c, n))
  {
    if n > 0 {
      hide Names, Signer;
      SignersAreNamed(c, n - 1);
      if Names(c, n - 1) && First(c, n - 1) {
        assert Signer(c, n - 1) !in Signers(c, n - 1);
      }
      forall id | exists j: nat | j < n && Names(c, j) :: Signer(c, j) == id
        ensures id in Signers(c, n)
      {
        var j: nat :| j < n && Names(c, j) && Signer(c, j) == id;
        if j == n - 1 && First(c, j) {
          assert Signers(c, n)[|Signers(c, n)| - 1] == id;
        }
      }
    }
  }

  lemma {:induction false} SignersAreProved(c: Check, n: nat)
    requires n <= |c.signatures| && Fault(c, n).None?
    ensures forall id | id in Signers(c, n) :: id in c.signerKeys && exists i :: Proves(c, i, id)
  {
    if n > 0 {
      SignersAreProved(c, n - 1);
      if Names(c, n - 1) && First(c, n - 1) {
        assert Proves(c, n - 1, Signer(c, n - 1));
      }
    }
  }

  function SetOf(s: seq<UID>): set<UID> {
    set id | id in s
  }

  /** Every signer some signature names. */
  function NamedSigners(c: Check): set<UID> {
    set i: nat | i < |c.signatures| && c.signatures[i].Some? && c.signatures[i].value.member.Some? :: c.signatures[i].value.member.value
  }

  lemma {:induction false} DistinctCount(s: seq<UID>)
    requires Distinct(s)
    ensures |SetOf(s)| == |s|
  {
    if s != [] {
      var front, last := s[..|s| - 1], s[|s| - 1];
      DistinctCount(front);
      assert SetOf(s) == SetOf(front) + {last};
    }
  }

  lemma SubsetCount<T>(a: set<T>, b: set<T>)
    requires a <= b
    ensures |a| <= |b| && (|a| == |b| ==> a == b)
  {
    assert b == a + (b - a);
    assert |b| == |a| + |b - a|;
  }

  /** A quorum is distinct declared signers, each proved, never fewer than one nor than asked; with
      no threshold it is exactly the declared signers. */
  lemma QuorumIsSound(c: Check, required: int)
    requires Verdict(c, required).Ok?
    ensures var quorum := Verdict(c, required).value;
      && Distinct(quorum) && |quorum| >= 1 && |quorum| >= required
      && (forall id | id in quorum :: id in c.signerKeys && exists i :: Proves(c, i, id))
      && (required <= 0 ==> SetOf(quorum) == c.signerKeys.Keys)
  {
    var n := |c.signatures|;
    var quorum := Signers(c, n);
    SignersAreNamed(c, n);
    SignersAreProved(c, n);
    DistinctCount(quorum);
    assert |c.signerKeys| == |c.signerKeys.Keys|;
    SubsetCount(SetOf(quorum), c.signerKeys.Keys);
  }

  /** And exactly when one passes: every named signer is declared, each one's first signature is
      valid, and the distinct signers are enough. */
  lemma QuorumIff(c: Check, required: int)
    ensures Verdict(c, required).Ok? <==>
      && (forall i: nat, id | SignedBy(c, i, id) ::
            id in c.signerKeys && ((forall j: nat | j < i :: !SignedBy(c, j, id)) ==> Proves(c, i, id)))
      && |NamedSigners(c)| >= 1 && |NamedSigners(c)| >= (if required > 0 then required else |c.signerKeys|)
  {
    var n := |c.signatures|;
    NoFaultIff(c, n);
    SignersAreNamed(c, n);
    DistinctCount(Signers(c, n));
    NamedAreSigners(c);
    forall i: nat | i < n && Names(c, i) ensures InRawTerms(c, i) {
      AreInRawTerms(c, i);
    }
    forall i: nat, id | SignedBy(c, i, id) ensures Names(c, i) && Signer(c, i) == id && InRawTerms(c, i) {
      AreInRawTerms(c, i);
    }
  }

  lemma AreInRawTerms(c: Check, i: nat)
    requires i < |c.signatures| && Names(c, i)
    ensures InRawTerms(c, i)
  {
    var id := Signer(c, i);
    assert forall j: nat | j < i :: SignedBy(c, j, id) <==> Names(c, j) && Signer(c, j) == id;
    if !First(c, i) {
      var j: nat :| j < i && Names(c, j) && Signer(c, j) == id;
      assert SignedBy(c, j, id);
    }
  }

  ghost predicate InRawTerms(c: Check, i: nat)
    requires i < |c.signatures| && Names(c, i)
  {
    && SignedBy(c, i, Signer(c, i)) && (Valid(c, i) <==> Proves(c, i, Signer(c, i)))
    && (First(c, i) <==> forall j: nat | j < i :: !SignedBy(c, j, Signer(c, i)))
  }

  lemma NamedAreSigners(c: Check)
    ensures NamedSigners(c) == SetOf(Signers(c, |c.signatures|))
  {
    var n := |c.signatures|;
    SignersAreNamed(c, n);
    forall id ensures id in NamedSigners(c) <==> id in Signers(c, n) {
      if id in Signers(c, n) {
        var j: nat :| j < n && Names(c, j) && Signer(c, j) == id;
        assert c.signatures[j].value.member.value in NamedSigners(c);
      }
      if id in NamedSigners(c) {
        var i: nat :| i < n && c.signatures[i].Some? && c.signatures[i].value.member == Some(id);
        assert Names(c, i) && Signer(c, i) == id;
      }
    }
  }

  /** The fault an error names is there: a signer not declared, an empty signature, one that does not verify, or too
      few signers. */
  ghost predicate IsFault(c: Check, required: int, error: QuorumError) {
    match error
    case UndeclaredSigner => exists i: nat, id :: SignedBy(c, i, id) && id !in c.signerKeys
    case EmptySignature => exists i: nat, id :: SignedBy(c, i, id) && id in c.signerKeys && c.signatures[i].value.signature == []
    case InvalidSignature =>
      exists i: nat, id ::
        && SignedBy(c, i, id) && id in c.signerKeys && c.signatures[i].value.signature != []
        && !c.verify(c.signerKeys[id], c.signatures[i].value.signature, c.digest)
    case TooFewSignatures => |NamedSigners(c)| < 1 || |NamedSigners(c)| < if required > 0 then required else |c.signerKeys|
  }

  lemma RefusalTells(c: Check, required: int)
    requires Verdict(c, required).Err?
    ensures IsFault(c, required, Verdict(c, required).error)
  {
    var n := |c.signatures|;
    if Fault(c, n).Some? {
      FaultTells(c, n, required);
    } else {
      SignersAreNamed(c, n);
      DistinctCount(Signers(c, n));
      NamedAreSigners(c);
    }
  }

  lemma {:induction false} FaultTells(c: Check, n: nat, required: int)
    requires n <= |c.signatures| && Fault(c, n).Some?
    ensures Fault(c, n).value != TooFewSignatures && IsFault(c, required, Fault(c, n).value)
  {
    if Fault(c, n - 1).Some? {
      FaultTells(c, n - 1, required);
    } else {
      assert SignedBy(c, n - 1, Signer(c, n - 1));
    }
  }

  lemma {:induction false} NoFaultIff(c: Check, n: nat)
    requires n <= |c.signatures|
    ensures Fault(c, n).None? <==> forall i: nat | i < n && Names(c, i) ::
      Signer(c, i) in c.signerKeys && (First(c, i) ==> Valid(c, i))
  {
    if n > 0 {
      NoFaultIff(c, n - 1);
    }
  }

  /** Two quorums over the same signers, more than half of them each, share a signer. */
  lemma QuorumsIntersect(a: Check, b: Check, required: int)
    requires a.signerKeys == b.signerKeys && 2 * required > |a.signerKeys|
    requires Verdict(a, required).Ok? && Verdict(b, required).Ok?
    ensures exists id :: id in Verdict(a, required).value && id in Verdict(b, required).value
  {
    QuorumIsSound(a, required);
    QuorumIsSound(b, required);
    var p, q := Verdict(a, required).value, Verdict(b, required).value;
    DistinctCount(p);
    DistinctCount(q);
    var ps, qs := SetOf(p), SetOf(q);
    assert |a.signerKeys| == |a.signerKeys.Keys|;
    SubsetCount(ps + qs, a.signerKeys.Keys);
    assert |ps + qs| == |ps| + |qs| - |ps * qs|;
    var id :| id in ps * qs;
  }
}
