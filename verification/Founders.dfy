/** The founder-set commitment a cold consumer corroborates a genesis against. */
module Founders {
  import opened Bytes
  import opened Uids
  import opened Sorting
  import opened SigningFrames

  datatype PubKey = PubKey(cryptoKitID: UID, bytes: seq<byte>)

  datatype FounderError = EmptyFounderSet | FounderWithoutKey | EntryTooLong

  /** "amp.fp.founders.v1". */
  const FOUNDER_SET: seq<byte> :=
    [0x61, 0x6D, 0x70, 0x2E, 0x66, 0x70, 0x2E, 0x66, 0x6F, 0x75, 0x6E, 0x64, 0x65, 0x72, 0x73, 0x2E, 0x76, 0x31]

  // ---- entries and their order ----

  function FounderEntry(pub: PubKey): seq<byte> {
    pub.cryptoKitID.AppendTo([]) + pub.bytes
  }

  /** The kit's sixteen bytes, then the key's own. */
  lemma EntryReads(pub: PubKey)
    ensures var entry := FounderEntry(pub);
      && |entry| >= 16 && FromBigEndian(entry[..8]) == pub.cryptoKitID.hi && FromBigEndian(entry[8..16]) == pub.cryptoKitID.lo
      && entry[16..] == pub.bytes
  {
    hide BigEndian, FromBigEndian;
    var entry := FounderEntry(pub);
    BigEndianRoundTrip(pub.cryptoKitID.hi, 8);
    BigEndianRoundTrip(pub.cryptoKitID.lo, 8);
    assert entry[..8] == BigEndian(pub.cryptoKitID.hi, 8) && entry[8..16] == BigEndian(pub.cryptoKitID.lo, 8);
  }

  lemma EntryInjective(a: PubKey, b: PubKey)
    requires FounderEntry(a) == FounderEntry(b)
    ensures a == b
  {
    hide BigEndian, FromBigEndian;
    var entry := FounderEntry(a);
    assert entry[..8] == BigEndian(a.cryptoKitID.hi, 8) && entry[..8] == BigEndian(b.cryptoKitID.hi, 8);
    assert entry[8..16] == BigEndian(a.cryptoKitID.lo, 8) && entry[8..16] == BigEndian(b.cryptoKitID.lo, 8);
    assert entry[16..] == a.bytes && entry[16..] == b.bytes;
    BigEndianRoundTrip(a.cryptoKitID.hi, 8);
    BigEndianRoundTrip(b.cryptoKitID.hi, 8);
    BigEndianRoundTrip(a.cryptoKitID.lo, 8);
    BigEndianRoundTrip(b.cryptoKitID.lo, 8);
  }

  lemma EntriesInjective()
    ensures Injective(FounderEntry)
  {
    hide FounderEntry;
    forall a: PubKey, b: PubKey | FounderEntry(a) == FounderEntry(b) ensures a == b {
      EntryInjective(a, b);
    }
  }

  /** bytes.Compare(a, b) < 0. */
  predicate BytesLess(a: seq<byte>, b: seq<byte>) {
    if b == [] then false
    else if a == [] then true
    else if a[0] != b[0] then a[0] < b[0]
    else BytesLess(a[1..], b[1..])
  }

  /** a and b agree on k bytes, and there a ends or has the smaller byte. */
  ghost predicate FirstAt(a: seq<byte>, b: seq<byte>, k: nat) {
    && k <= |a| && k < |b| && a[..k] == b[..k]
    && (k == |a| || a[k] < b[k])
  }

  /** Lexicographic: the first difference decides, and a prefix comes first. */
  lemma {:induction false} LexicographicIff(a: seq<byte>, b: seq<byte>)
    ensures BytesLess(a, b) <==> exists k: nat :: FirstAt(a, b, k)
  {
    if a != [] && b != [] && a[0] == b[0] {
      LexicographicIff(a[1..], b[1..]);
      if BytesLess(a, b) {
        var k: nat :| FirstAt(a[1..], b[1..], k);
        assert a[..k + 1] == [a[0]] + a[1..][..k] && b[..k + 1] == [b[0]] + b[1..][..k];
        assert FirstAt(a, b, k + 1);
      } else if k: nat :| FirstAt(a, b, k) {
        assert a[1..][..k - 1] == a[..k][1..] && b[1..][..k - 1] == b[..k][1..];
        assert FirstAt(a[1..], b[1..], k - 1);
      }
    } else if BytesLess(a, b) {
      assert a[..0] == [] == b[..0];
      assert FirstAt(a, b, 0);
    } else if a != [] && b != [] {
      assert forall k: nat | 0 < k <= |a| && k <= |b| && a[..k] == b[..k] :: a[..k][0] == b[..k][0];
    }
  }

  lemma {:induction false} BytesTotal(a: seq<byte>, b: seq<byte>)
    ensures !BytesLess(a, a)
    ensures !BytesLess(a, b) && !BytesLess(b, a) ==> a == b
  {
    if a != [] {
      BytesTotal(a[1..], if b == [] then [] else b[1..]);
      assert a == [a[0]] + a[1..];
      assert b != [] ==> b == [b[0]] + b[1..];
    }
  }

  lemma {:induction false} BytesTransitive(a: seq<byte>, b: seq<byte>, c: seq<byte>)
    requires BytesLess(a, b) && BytesLess(b, c)
    ensures BytesLess(a, c)
  {
    if a != [] && a[0] == b[0] && b[0] == c[0] {
      BytesTransitive(a[1..], b[1..], c[1..]);
    }
  }

  lemma BytesAreOrdered(elements: multiset<seq<byte>>)
    ensures StrictOrder(BytesLess) && Separates(BytesLess, elements)
  {
    hide BytesLess;
    forall a: seq<byte>, b: seq<byte>, c: seq<byte>
      ensures !BytesLess(a, a) && (!BytesLess(a, b) && !BytesLess(b, a) ==> a == b)
      ensures BytesLess(a, b) && BytesLess(b, c) ==> BytesLess(a, c)
    {
      BytesTotal(a, b);
      if BytesLess(a, b) && BytesLess(b, c) {
        BytesTransitive(a, b, c);
      }
    }
  }

  // ---- the founder set ----

  function QuorumPart(requiredSignatures: int): (part: seq<byte>)
    ensures |part| == 4
  {
    BigEndian(requiredSignatures % TWO_32, 4)
  }

  ghost predicate IsInt32(x: int) {
    -0x8000_0000 <= x < 0x8000_0000
  }

  /** The message of a founder set: its entries in ascending order, then the quorum. */
  ghost predicate IsCommitment(founders: seq<PubKey>, requiredSignatures: int, message: seq<byte>) {
    exists entries ::
      && Ascending(BytesLess, entries) && multiset(entries) == multiset(Mapped(FounderEntry, founders))
      && Framable(entries) && message == Flatten(Framed(FOUNDER_SET, entries + [QuorumPart(requiredSignatures)]))
  }

  /** `founders` lists the keys as a range over the founder map happens to visit them. */
  method FounderFingerprint(hash: seq<byte> -> seq<byte>, founders: seq<PubKey>, requiredSignatures: int)
    returns (r: Result<seq<byte>, FounderError>, ghost message: seq<byte>)
    ensures r == Err(EmptyFounderSet) <==> founders == []
    ensures r == Err(FounderWithoutKey) <==> exists pub | pub in founders :: pub.bytes == []
    ensures r.Ok? ==> IsCommitment(founders, requiredSignatures, message) && r.value == hash(message)
    ensures r == Err(EntryTooLong) ==> exists pub | pub in founders :: 16 + |pub.bytes| >= TWO_32
  {
    message := [];
    if founders == [] {
      return Err(EmptyFounderSet), [];
    }
    var entries := [];
    for i := 0 to |founders|
      invariant entries == Mapped(FounderEntry, founders[..i])
      invariant forall pub | pub in founders[..i] :: pub.bytes != []
    {
      if founders[i].bytes == [] {
        return Err(FounderWithoutKey), [];
      }
      entries := entries + [FounderEntry(founders[i])];
      MappedLast(FounderEntry, founders, i);
    }
    assert founders[..|founders|] == founders;
    BytesAreOrdered(multiset(entries));
    var sorted := SortSlice(entries, BytesLess);
    var signed := SigningParts(FOUNDER_SET, sorted + [QuorumPart(requiredSignatures)]);
    if signed.Err? {
      EntriesFrame(founders, sorted, requiredSignatures);
      return Err(EntryTooLong), [];
    }
    assert Framable(sorted) by {
      assert forall part | part in sorted :: part in sorted + [QuorumPart(requiredSignatures)];
    }
    message := Flatten(signed.value);
    r := Ok(hash(Flatten(signed.value)));
  }

  lemma EntriesFrame(founders: seq<PubKey>, sorted: seq<seq<byte>>, requiredSignatures: int)
    requires multiset(sorted) == multiset(Mapped(FounderEntry, founders))
    requires !Framable(sorted + [QuorumPart(requiredSignatures)])
    ensures exists pub | pub in founders :: 16 + |pub.bytes| >= TWO_32
  {
    var part :| part in sorted + [QuorumPart(requiredSignatures)] && |part| >= TWO_32;
    assert part in multiset(sorted);
    assert part in Mapped(FounderEntry, founders);
    MappedMember(FounderEntry, founders, part);
  }

  /** The commitment tells exactly the founders' keys, each as often as it is held, and the quorum; the order in
      which they were visited does not show. */
  lemma CommitmentIff(a: seq<PubKey>, p: int, m: seq<byte>, b: seq<PubKey>, q: int, n: seq<byte>)
    requires IsCommitment(a, p, m) && IsCommitment(b, q, n) && IsInt32(p) && IsInt32(q)
    ensures m == n <==> multiset(a) == multiset(b) && p == q
  {
    hide BytesLess, Framed, Ascending, Injective, FounderEntry, DomainTag, QuorumPart, StrictOrder, Separates, Mapped;
    var x :| Ascending(BytesLess, x) && multiset(x) == multiset(Mapped(FounderEntry, a))
      && Framable(x) && m == Flatten(Framed(FOUNDER_SET, x + [QuorumPart(p)]));
    var y :| Ascending(BytesLess, y) && multiset(y) == multiset(Mapped(FounderEntry, b))
      && Framable(y) && n == Flatten(Framed(FOUNDER_SET, y + [QuorumPart(q)]));
    if m == n {
      MessageInjective(FOUNDER_SET, x + [QuorumPart(p)], FOUNDER_SET, y + [QuorumPart(q)]);
      SameLast(x, QuorumPart(p), y, QuorumPart(q));
      SameQuorum(p, q);
      EntriesInjective();
      MappedReflects(FounderEntry, a, b);
    }
    if multiset(a) == multiset(b) && p == q {
      MappedKeeps(FounderEntry, a, b);
      BytesAreOrdered(multiset(x));
      AscendingIsUnique(BytesLess, x, y);
    }
  }

  lemma SameLast(x: seq<seq<byte>>, p: seq<byte>, y: seq<seq<byte>>, q: seq<byte>)
    requires x + [p] == y + [q]
    ensures x == y && p == q
  {
    assert (x + [p])[..|x|] == x && (y + [q])[..|y|] == y;
    assert (x + [p])[|x|] == p && (y + [q])[|y|] == q;
  }

  /** The quorum as Go's uint32 of an int32. */
  lemma QuorumReads(requiredSignatures: int)
    requires IsInt32(requiredSignatures)
    ensures FromBigEndian(QuorumPart(requiredSignatures))
      == if requiredSignatures >= 0 then requiredSignatures else requiredSignatures + 0x1_0000_0000
  {
    hide BigEndian, FromBigEndian;
    BigEndianRoundTrip(requiredSignatures % TWO_32, 4);
  }

  lemma SameQuorum(p: int, q: int)
    requires IsInt32(p) && IsInt32(q) && QuorumPart(p) == QuorumPart(q)
    ensures p == q
  {
    hide BigEndian, FromBigEndian;
    BigEndianRoundTrip(p % TWO_32, 4);
    BigEndianRoundTrip(q % TWO_32, 4);
  }
}
