/** The domain-separated message a signature covers. */
module SigningFrames {
  import opened Bytes

  datatype FrameError = PartTooLong

  /** The domain, led by its length byte. */
  function DomainTag(domain: seq<byte>): (s: seq<byte>)
    ensures |s| == 1 + |domain|
  {
    [|domain| % 256] + domain
  }

  function FrameParts(parts: seq<seq<byte>>): seq<byte> {
    if parts == [] then [] else FrameParts(parts[..|parts| - 1]) + FramePart(parts[|parts| - 1])
  }

  function FramePart(part: seq<byte>): seq<byte> {
    BigEndian(|part|, 4) + part
  }

  predicate Framable(parts: seq<seq<byte>>) {
    forall part | part in parts :: |part| < TWO_32
  }

  /** The segments a signing digest covers, in the order they are written to the hasher. */
  function Framed(domain: seq<byte>, parts: seq<seq<byte>>): seq<seq<byte>> {
    if parts == [] then [DomainTag(domain)] else
    var part := parts[|parts| - 1];
    Framed(domain, parts[..|parts| - 1]) + [BigEndian(|part|, 4), part]
  }

  method SigningParts(domain: seq<byte>, parts: seq<seq<byte>>) returns (r: Result<seq<seq<byte>>, FrameError>)
    ensures r == if Framable(parts) then Ok(Framed(domain, parts)) else Err(PartTooLong)
  {
    hide DomainTag, BigEndian;
    var framed := [DomainTag(domain)];
    for i := 0 to |parts|
      invariant framed == Framed(domain, parts[..i]) && Framable(parts[..i])
    {
      if |parts[i]| > 0xFFFF_FFFF {
        return Err(PartTooLong);
      }
      framed := framed + [BigEndian(|parts[i]|, 4), parts[i]];
      assert parts[..i + 1][..i] == parts[..i];
    }
    assert parts[..|parts|] == parts;
    return Ok(framed);
  }

  lemma {:induction false} FramedBytes(domain: seq<byte>, parts: seq<seq<byte>>)
    ensures Flatten(Framed(domain, parts)) == DomainTag(domain) + FrameParts(parts)
  {
    if parts == [] {
      FlattenTwo(DomainTag(domain), []);
    } else {
      var part, front := parts[|parts| - 1], parts[..|parts| - 1];
      FramedBytes(domain, front);
      FlattenConcat(Framed(domain, front), [BigEndian(|part|, 4), part]);
      FlattenTwo(BigEndian(|part|, 4), part);
      Associate(DomainTag(domain), FrameParts(front), FramePart(part));
    }
  }

  /** One part's message: the domain behind its length byte, the part behind its four. */
  lemma OnePartMessage(domain: seq<byte>, part: seq<byte>)
    requires |domain| < 256
    ensures Flatten(Framed(domain, [part])) == [|domain|] + domain + BigEndian(|part|, 4) + part
  {
    hide BigEndian, Framed, Flatten, FrameParts, DomainTag;
    FramedBytes(domain, [part]);
    OnePart(domain, part);
    Associate([|domain|] + domain, BigEndian(|part|, 4), part);
  }

  lemma OnePart(domain: seq<byte>, part: seq<byte>)
    requires |domain| < 256
    ensures FrameParts([part]) == BigEndian(|part|, 4) + part && DomainTag(domain) == [|domain|] + domain
  {
    hide BigEndian;
    var front := FrameParts([part][..0]);
    assert front == [] && front + FramePart(part) == FramePart(part);
  }

  lemma {:induction false} FrameFirst(parts: seq<seq<byte>>)
    requires parts != []
    ensures FrameParts(parts) == FramePart(parts[0]) + FrameParts(parts[1..])
  {
    hide FramePart;
    var n := |parts| - 1;
    if n > 0 {
      FrameFirst(parts[..n]);
      assert parts[..n][1..] == parts[1..][..n - 1] && parts[1..][n - 1] == parts[n];
      Associate(FramePart(parts[0]), FrameParts(parts[1..][..n - 1]), FramePart(parts[n]));
    }
  }

  lemma PartSplits(a: seq<byte>, b: seq<byte>, restA: seq<byte>, restB: seq<byte>)
    requires |a| < TWO_32 && |b| < TWO_32 && FramePart(a) + restA == FramePart(b) + restB
    ensures a == b && restA == restB
  {
    hide BigEndian, FromBigEndian;
    var whole := FramePart(a) + restA;
    assert whole[..4] == BigEndian(|a|, 4) && whole[..4] == BigEndian(|b|, 4);
    BigEndianRoundTrip(|a|, 4);
    BigEndianRoundTrip(|b|, 4);
    assert whole[4..4 + |a|] == a && whole[4..4 + |a|] == b;
    assert whole[4 + |a|..] == restA && whole[4 + |a|..] == restB;
  }

  /** No two lists of parts frame to the same bytes, however the bytes are split between them. */
  lemma {:induction false} FramesInjective(a: seq<seq<byte>>, b: seq<seq<byte>>)
    requires Framable(a) && Framable(b) && FrameParts(a) == FrameParts(b)
    ensures a == b
  {
    hide FrameParts, FramePart;
    FrameEmptyIff(a);
    FrameEmptyIff(b);
    if a != [] {
      FrameFirst(a);
      FrameFirst(b);
      assert a[0] in a && b[0] in b;
      PartSplits(a[0], b[0], FrameParts(a[1..]), FrameParts(b[1..]));
      FramesInjective(a[1..], b[1..]);
      assert a == [a[0]] + a[1..] && b == [b[0]] + b[1..];
    }
  }

  lemma FrameEmptyIff(parts: seq<seq<byte>>)
    ensures FrameParts(parts) == [] <==> parts == []
  {
  }

  lemma TagSplits(d: seq<byte>, x: seq<byte>, e: seq<byte>, y: seq<byte>)
    requires |d| < 256 && |e| < 256 && DomainTag(d) + x == DomainTag(e) + y
    ensures d == e && x == y
  {
    var whole := DomainTag(d) + x;
    assert whole[0] == |d| && whole[0] == |e|;
    assert whole[1..1 + |d|] == d && whole[1..1 + |d|] == e;
    assert whole[1 + |d|..] == x && whole[1 + |d|..] == y;
  }

  /** The domain and the parts can both be read back off the message: no domain's message is another's. */
  lemma MessageInjective(d: seq<byte>, a: seq<seq<byte>>, e: seq<byte>, b: seq<seq<byte>>)
    requires |d| < 256 && |e| < 256 && Framable(a) && Framable(b)
    requires Flatten(Framed(d, a)) == Flatten(Framed(e, b))
    ensures d == e && a == b
  {
    hide FrameParts, Framable, Framed, Flatten, DomainTag;
    FramedBytes(d, a);
    FramedBytes(e, b);
    TagSplits(d, FrameParts(a), e, FrameParts(b));
    FramesInjective(a, b);
  }
}
