/** The range-lazy media reader: an io.ReadSeekCloser over concatenated segment blobs that opens only
    the segments a read touches and keeps the most recently used within a byte budget. */
module Media {
  import opened Bytes
  import opened Uids
  import opened Sorting

  datatype SegEntry = SegEntry(offset: nat, length: nat)

  datatype ReadError = NoError | EOF | ReaderClosed | OpenFailed | BlobFailed

  // ---- the byte timeline ----

  ghost function Total(lengths: seq<nat>): nat {
    if lengths == [] then 0 else Total(lengths[..|lengths| - 1]) + lengths[|lengths| - 1]
  }

  /** index lays segments of these lengths end to end. */
  ghost predicate Laid(index: seq<SegEntry>, lengths: seq<nat>) {
    && |index| == |lengths|
    && forall i | 0 <= i < |index| :: index[i] == SegEntry(Total(lengths[..i]), lengths[i])
  }

  /** loadLocked's layout: a running offset over the collected lengths. */
  method BuildIndex(lengths: seq<nat>) returns (index: seq<SegEntry>, size: nat)
    ensures Laid(index, lengths) && size == Total(lengths)
  {
    index, size := [], 0;
    for i := 0 to |lengths|
      invariant |index| == i && size == Total(lengths[..i])
      invariant forall j | 0 <= j < i :: index[j] == SegEntry(Total(lengths[..j]), lengths[j])
    {
      assert lengths[..i + 1][..i] == lengths[..i];
      index := index + [SegEntry(size, lengths[i])];
      size := size + lengths[i];
    }
    assert lengths[..|lengths|] == lengths;
  }

  /** A collected segment: its ItemID, its indexed length and what its blob holds. */
  datatype SegRaw = SegRaw(itemID: UID, length: nat, blob: seq<byte>)

  predicate Earlier(a: SegRaw, b: SegRaw) {
    a.itemID.Less(b.itemID)
  }

  function RawLengths(raw: seq<SegRaw>): (lengths: seq<nat>)
    ensures |lengths| == |raw|
  {
    seq(|raw|, i requires 0 <= i < |raw| => raw[i].length)
  }

  function RawBlobs(raw: seq<SegRaw>): (blobs: seq<seq<byte>>)
    ensures |blobs| == |raw|
  {
    seq(|raw|, i requires 0 <= i < |raw| => raw[i].blob)
  }

  /** Orders the collected segments by ItemID and lays them out. */
  method LoadSegments(raw: seq<SegRaw>) returns (index: seq<SegEntry>, blobs: seq<seq<byte>>, size: nat, ghost ordered: seq<SegRaw>)
    ensures multiset(ordered) == multiset(raw)
    ensures forall i, j | 0 <= i < j < |ordered| :: !ordered[j].itemID.Less(ordered[i].itemID)
    ensures |blobs| == |index| == |ordered| && forall i | 0 <= i < |ordered| :: blobs[i] == ordered[i].blob && index[i].length == ordered[i].length
    ensures Laid(index, Lengths(index)) && size == Total(Lengths(index))
  {
    var sorted := SortSlice(raw, Earlier);
    assert forall i, j | 0 <= i < j < |sorted| :: !Earlier(sorted[j], sorted[i]);
    index, size := BuildIndex(RawLengths(sorted));
    assert Lengths(index) == RawLengths(sorted);
    blobs, ordered := RawBlobs(sorted), sorted;
  }

  /** However the segments were collected, distinct ItemIDs give one and the same timeline. */
  lemma TimelineIsCanonical(a: seq<SegRaw>, b: seq<SegRaw>)
    requires (forall i, j | 0 <= i < j < |a| :: !a[j].itemID.Less(a[i].itemID))
    requires (forall i, j | 0 <= i < j < |b| :: !b[j].itemID.Less(b[i].itemID))
    requires multiset(a) == multiset(b)
    requires forall x, y | x in multiset(a) && y in multiset(a) && x.itemID == y.itemID :: x == y
    ensures a == b
  {
    assert Ascending(Earlier, a) && Ascending(Earlier, b);
    assert StrictOrder(Earlier) && Separates(Earlier, multiset(a));
    AscendingIsUnique(Earlier, a, b);
  }

  lemma {:induction false} TotalMonotone(lengths: seq<nat>, i: nat, j: nat)
    requires i <= j <= |lengths|
    ensures Total(lengths[..i]) <= Total(lengths[..j])
    decreases j
  {
    if i < j {
      assert lengths[..j][..j - 1] == lengths[..j - 1];
      TotalMonotone(lengths, i, j - 1);
    }
  }

  lemma TotalNext(lengths: seq<nat>, i: nat)
    requires i < |lengths|
    ensures Total(lengths[..i + 1]) == Total(lengths[..i]) + lengths[i]
  {
    assert lengths[..i + 1][..i] == lengths[..i];
  }

  ghost function Lengths(index: seq<SegEntry>): (lengths: seq<nat>)
    ensures |lengths| == |index|
  {
    seq(|index|, i requires 0 <= i < |index| => index[i].length)
  }

  /** What the stream serves: of each blob, its indexed length. */
  ghost function Concat(blobs: seq<seq<byte>>, lengths: seq<nat>): seq<byte>
    requires |blobs| == |lengths| && forall i | 0 <= i < |lengths| :: lengths[i] <= |blobs[i]|
  {
    if lengths == [] then [] else
    var n := |lengths| - 1;
    Concat(blobs[..n], lengths[..n]) + blobs[n][..lengths[n]]
  }

  lemma {:induction false} ConcatLength(blobs: seq<seq<byte>>, lengths: seq<nat>)
    requires |blobs| == |lengths| && forall i | 0 <= i < |lengths| :: lengths[i] <= |blobs[i]|
    ensures |Concat(blobs, lengths)| == Total(lengths)
    decreases |lengths|
  {
    if lengths != [] {
      ConcatLength(blobs[..|blobs| - 1], lengths[..|lengths| - 1]);
    }
  }

  /** Segment i's bytes sit at its offset. */
  lemma {:induction false} ConcatAt(blobs: seq<seq<byte>>, lengths: seq<nat>, i: nat)
    requires |blobs| == |lengths| && forall k | 0 <= k < |lengths| :: lengths[k] <= |blobs[k]|
    requires i < |lengths|
    ensures Total(lengths[..i]) + lengths[i] <= |Concat(blobs, lengths)|
    ensures Concat(blobs, lengths)[Total(lengths[..i])..Total(lengths[..i]) + lengths[i]] == blobs[i][..lengths[i]]
    decreases |lengths|
  {
    var n := |lengths| - 1;
    ConcatLength(blobs[..n], lengths[..n]);
    if i < n {
      ConcatAt(blobs[..n], lengths[..n], i);
      assert lengths[..n][..i] == lengths[..i];
    }
  }

  // ---- least recently used ----

  ghost function Remove(s: seq<nat>, x: nat): seq<nat> {
    if s == [] then [] else (if s[0] == x then [] else [s[0]]) + Remove(s[1..], x)
  }

  /** The segments of a history of uses, each once, ordered by last use. */
  ghost function LastUse(history: seq<nat>): seq<nat> {
    if history == [] then [] else
    var n := |history| - 1;
    Remove(LastUse(history[..n]), history[n]) + [history[n]]
  }

  /** p is the last use of x. */
  ghost predicate LastAt(history: seq<nat>, x: nat, p: nat) {
    p < |history| && history[p] == x && forall q | p < q < |history| :: history[q] != x
  }

  /** Every segment used is there once, and the one last used later is further back. */
  lemma {:induction false} LastUseIs(history: seq<nat>)
    ensures Distinct(LastUse(history)) && forall x :: x in LastUse(history) <==> x in history
    ensures forall i, j, p, q | 0 <= i < j < |LastUse(history)| ::
      LastAt(history, LastUse(history)[i], p) && LastAt(history, LastUse(history)[j], q) ==> p < q
    decreases |history|
  {
    if history != [] {
      var n := |history| - 1;
      var front, x := history[..n], history[n];
      LastUseIs(front);
      var before := LastUse(front);
      var kept := Remove(before, x);
      RemoveMembers(before, x);
      assert history == front + [x] && LastUse(history) == kept + [x];
      forall i, j | 0 <= i < j < |kept| + 1 ensures LastUse(history)[i] != LastUse(history)[j] {
        assert kept[i] in kept;
      }
      forall i, j, p, q | 0 <= i < j < |LastUse(history)|
        && LastAt(history, LastUse(history)[i], p) && LastAt(history, LastUse(history)[j], q)
        ensures p < q
      {
        if j < |kept| {
          var a, b := OrderRemains(before, x, i, j);
          StillLast(front, x, before[a], p);
          StillLast(front, x, before[b], q);
        } else {
          assert kept[i] in kept;
        }
      }
    }
  }

  lemma StillLast(front: seq<nat>, x: nat, y: nat, p: nat)
    requires y != x && LastAt(front + [x], y, p)
    ensures LastAt(front, y, p)
  {
    var history := front + [x];
    assert history[|front|] == x;
    assert forall q | p < q < |front| :: history[q] == front[q];
  }

  /** Removing keeps the order of the rest. */
  lemma {:induction false} OrderRemains(s: seq<nat>, x: nat, i: nat, j: nat) returns (a: nat, b: nat)
    requires i < j < |Remove(s, x)|
    ensures a < b < |s| && s[a] == Remove(s, x)[i] && s[b] == Remove(s, x)[j]
    ensures s[a] != x && s[b] != x
  {
    if s[0] == x {
      a, b := OrderRemains(s[1..], x, i, j);
      a, b := a + 1, b + 1;
    } else if i == 0 {
      RemoveMembers(s[1..], x);
      var y := Remove(s[1..], x)[j - 1];
      assert y in Remove(s[1..], x);
      b :| 0 <= b < |s[1..]| && s[1..][b] == y;
      a, b := 0, b + 1;
    } else {
      a, b := OrderRemains(s[1..], x, i - 1, j - 1);
      a, b := a + 1, b + 1;
    }
  }

  ghost predicate Suffix(a: seq<nat>, b: seq<nat>) {
    |a| <= |b| && b[|b| - |a|..] == a
  }

  lemma {:induction false} RemoveConcat(a: seq<nat>, b: seq<nat>, x: nat)
    ensures Remove(a + b, x) == Remove(a, x) + Remove(b, x)
  {
    if a == [] {
      assert a + b == b;
    } else {
      assert (a + b)[1..] == a[1..] + b;
      RemoveConcat(a[1..], b, x);
    }
  }

  lemma {:induction false} RemoveAbsent(s: seq<nat>, x: nat)
    requires x !in s
    ensures Remove(s, x) == s
  {
    if s != [] {
      RemoveAbsent(s[1..], x);
    }
  }

  ghost predicate Distinct(s: seq<nat>) {
    forall i, j | 0 <= i < j < |s| :: s[i] != s[j]
  }

  lemma RemoveAt(s: seq<nat>, k: nat)
    requires k < |s| && Distinct(s)
    ensures Remove(s, s[k]) == s[..k] + s[k + 1..]
  {
    var rest := s[k..];
    assert s == s[..k] + rest && rest[0] == s[k] && rest[1..] == s[k + 1..];
    RemoveConcat(s[..k], rest, s[k]);
    RemoveAbsent(s[..k], s[k]);
    RemoveAbsent(rest[1..], s[k]);
    RemoveHead(rest);
  }

  lemma RemoveHead(s: seq<nat>)
    requires s != []
    ensures Remove(s, s[0]) == Remove(s[1..], s[0])
  {
    assert [] + Remove(s[1..], s[0]) == Remove(s[1..], s[0]);
  }

  lemma {:induction false} RemoveMembers(s: seq<nat>, x: nat)
    ensures forall y :: y in Remove(s, x) <==> y in s && y != x
    ensures Distinct(s) ==> Distinct(Remove(s, x))
  {
    if s != [] {
      RemoveMembers(s[1..], x);
      if Distinct(s) {
        forall i, j | 0 <= i < j < |Remove(s, x)|
          ensures Remove(s, x)[i] != Remove(s, x)[j]
        {
          assert Remove(s, x)[j] in Remove(s[1..], x) || i == j;
        }
      }
    }
  }

  /** Using a segment moves it to the tail of both. */
  lemma TouchKeepsSuffix(open: seq<nat>, used: seq<nat>, x: nat)
    requires Suffix(open, used)
    ensures Suffix(Remove(open, x) + [x], Remove(used, x) + [x])
  {
    var front := used[..|used| - |open|];
    assert used == front + open;
    RemoveConcat(front, open, x);
  }

  ghost predicate Below(segs: seq<nat>, n: nat) {
    forall i | 0 <= i < |segs| :: segs[i] < n
  }

  ghost function SumOf(segs: seq<nat>, lengths: seq<nat>): nat
    requires Below(segs, |lengths|)
  {
    if segs == [] then 0 else lengths[segs[0]] + SumOf(segs[1..], lengths)
  }

  /** Evicting from the head while over budget, never the last. */
  ghost function KeepWithin(segs: seq<nat>, lengths: seq<nat>, residency: int): (kept: seq<nat>)
    requires Below(segs, |lengths|)
    decreases |segs|
  {
    if |segs| > 1 && SumOf(segs, lengths) > residency then KeepWithin(segs[1..], lengths, residency) else segs
  }

  /** What stays is the most recently used part, the last always, within the budget unless alone. */
  lemma {:induction false} KeepsTail(segs: seq<nat>, lengths: seq<nat>, residency: int)
    requires Below(segs, |lengths|)
    ensures var kept := KeepWithin(segs, lengths, residency);
      && Suffix(kept, segs) && Below(kept, |lengths|)
      && (segs != [] ==> kept != [] && kept[|kept| - 1] == segs[|segs| - 1])
      && (|kept| <= 1 || SumOf(kept, lengths) <= residency)
    decreases |segs|
  {
    if |segs| > 1 && SumOf(segs, lengths) > residency {
      KeepsTail(segs[1..], lengths, residency);
      SuffixTransitive(KeepWithin(segs, lengths, residency), segs[1..], segs);
    }
  }

  /** And no more goes than must: whatever is longer exceeds the budget. */
  lemma {:induction false} KeepsMost(segs: seq<nat>, lengths: seq<nat>, residency: int, k: nat)
    requires Below(segs, |lengths|) && k < |segs| - |KeepWithin(segs, lengths, residency)|
    ensures Below(segs[k..], |lengths|) && SumOf(segs[k..], lengths) > residency
    decreases k
  {
    if k == 0 {
      assert segs[0..] == segs;
    } else {
      assert segs[k..] == segs[1..][k - 1..];
      KeepsMost(segs[1..], lengths, residency, k - 1);
    }
  }

  lemma EvictedSuffix(segs: seq<nat>, used: seq<nat>, lengths: seq<nat>, residency: int)
    requires Suffix(segs, used)
    ensures Below(segs, |lengths|) ==> Suffix(KeepWithin(segs, lengths, residency), used)
  {
    if Below(segs, |lengths|) {
      KeepsTail(segs, lengths, residency);
      SuffixTransitive(KeepWithin(segs, lengths, residency), segs, used);
    }
  }

  lemma KeepStep(segs: seq<nat>, lengths: seq<nat>, residency: int)
    requires Below(segs, |lengths|) && |segs| > 1 && SumOf(segs, lengths) > residency
    ensures Below(segs[1..], |lengths|)
    ensures KeepWithin(segs, lengths, residency) == KeepWithin(segs[1..], lengths, residency)
  {
  }

  lemma {:induction false} SumConcat(a: seq<nat>, b: seq<nat>, lengths: seq<nat>)
    requires Below(a, |lengths|) && Below(b, |lengths|)
    ensures Below(a + b, |lengths|) && SumOf(a + b, lengths) == SumOf(a, lengths) + SumOf(b, lengths)
  {
    if a == [] {
      assert a + b == b;
    } else {
      assert (a + b)[1..] == a[1..] + b;
      SumConcat(a[1..], b, lengths);
    }
  }

  /** Promoting an open segment changes no sum. */
  lemma PromoteKeepsSum(segs: seq<nat>, k: nat, lengths: seq<nat>)
    requires k < |segs| && Below(segs, |lengths|)
    ensures Below(segs[..k] + segs[k + 1..] + [segs[k]], |lengths|)
    ensures SumOf(segs[..k] + segs[k + 1..] + [segs[k]], lengths) == SumOf(segs, lengths)
  {
    var a, x, b := segs[..k], [segs[k]], segs[k + 1..];
    assert segs == a + (x + b);
    SumConcat(x, b, lengths);
    SumConcat(a, x + b, lengths);
    SumConcat(a, b, lengths);
    SumConcat(a + b, x, lengths);
  }

  // ---- the readers ----

  /** A reader over one blob.  A seek may fail.  A read returns any non-empty part of what was asked for, may report
      the end of the blob along with its last bytes, or fails after any part of it. */
  class AssetReader {
    const data: seq<byte>
    var at: nat
    var closes: nat // how often it was closed

    constructor (data: seq<byte>)
      ensures this.data == data && at == 0 && closes == 0
    {
      this.data, at, closes := data, 0, 0;
    }

    method Seek(pos: nat) returns (ok: bool)
      modifies `at
      ensures ok ==> at == pos
    {
      ok :| true;
      at := pos;
    }

    method Read(want: nat) returns (got: seq<byte>, err: ReadError)
      modifies `at
      ensures old(at) <= |data| ==> at == old(at) + |got| <= |data| && got == data[old(at)..at]
      ensures old(at) > |data| ==> got == [] && at == old(at)
      ensures |got| <= want && (err == NoError && want > 0 ==> got != [])
      ensures err == NoError || err == EOF || err == BlobFailed
      ensures err == EOF ==> at >= |data|
      ensures want > 0 && old(at) < |data| && err == EOF ==> got != []
    {
      if at >= |data| {
        return [], EOF;
      }
      var most := Min(want, |data| - at);
      var fails: bool :| true;
      var n: nat :| n <= most && (most > 0 && !fails ==> n > 0);
      got := data[at..at + n];
      at := at + n;
      var early: bool :| true;
      err := if fails then BlobFailed else if at == |data| && early then EOF else NoError;
    }

    method Close()
      modifies `closes
      ensures closes == old(closes) + 1
    {
      closes := closes + 1;
    }
  }

  datatype OpenSeg = OpenSeg(seg: nat, length: nat, reader: AssetReader)

  ghost function Segs(open: seq<OpenSeg>): (segs: seq<nat>)
    ensures |segs| == |open|
    ensures forall k | 0 <= k < |open| :: segs[k] == open[k].seg
  {
    seq(|open|, k requires 0 <= k < |open| => open[k].seg)
  }

  ghost function Readers(open: seq<OpenSeg>): set<AssetReader> {
    set k | 0 <= k < |open| :: open[k].reader
  }

  /** The open list: distinct segments, each with its own reader over its blob. */
  ghost predicate Listing(index: seq<SegEntry>, blobs: seq<seq<byte>>, open: seq<OpenSeg>, ever: set<AssetReader>)
    requires |blobs| == |index|
  {
    && Below(Segs(open), |index|) && Distinct(Segs(open))
    && (forall k | 0 <= k < |open| :: open[k].length == index[open[k].seg].length
          && open[k].reader in ever && open[k].reader.data == blobs[open[k].seg])
    && (forall i, j | 0 <= i < j < |open| :: open[i].reader != open[j].reader)
  }

  ghost function Sum(index: seq<SegEntry>, open: seq<OpenSeg>): nat
    requires Below(Segs(open), |index|)
  {
    SumOf(Segs(open), Lengths(index))
  }

  lemma ListPromoted(index: seq<SegEntry>, blobs: seq<seq<byte>>, open: seq<OpenSeg>, ever: set<AssetReader>, k: nat)
    requires |blobs| == |index| && Listing(index, blobs, open, ever) && k < |open|
    ensures var after := open[..k] + open[k + 1..] + [open[k]];
      && Listing(index, blobs, after, ever) && Readers(after) == Readers(open)
      && Sum(index, after) == Sum(index, open)
      && Segs(after) == Remove(Segs(open), open[k].seg) + [open[k].seg]
  {
    hide SumOf, Remove, Readers;
    var after, segs := open[..k] + open[k + 1..] + [open[k]], Segs(open);
    assert Segs(after) == segs[..k] + segs[k + 1..] + [segs[k]];
    RemoveAt(segs, k);
    PromoteKeepsSum(segs, k, Lengths(index));
    SameReaders(open, k);
    RemoveMembers(segs, open[k].seg);
  }

  lemma SameReaders(open: seq<OpenSeg>, k: nat)
    requires k < |open|
    ensures Readers(open[..k] + open[k + 1..] + [open[k]]) == Readers(open)
  {
    var after := open[..k] + open[k + 1..] + [open[k]];
    forall r | r in Readers(open) ensures r in Readers(after) {
      var j :| 0 <= j < |open| && open[j].reader == r;
      assert after[if j < k then j else if j == k then |open| - 1 else j - 1].reader == r;
    }
    forall r | r in Readers(after) ensures r in Readers(open) {
      var j :| 0 <= j < |after| && after[j].reader == r;
      assert open[if j < k then j else if j == |open| - 1 then k else j + 1].reader == r;
    }
  }

  lemma ListDropped(index: seq<SegEntry>, blobs: seq<seq<byte>>, open: seq<OpenSeg>, ever: set<AssetReader>)
    requires |blobs| == |index| && Listing(index, blobs, open, ever) && open != []
    ensures Listing(index, blobs, open[1..], ever)
    ensures Readers(open[1..]) == Readers(open) - {open[0].reader} && open[0].reader in Readers(open) && open[0].reader in ever
    ensures Sum(index, open[1..]) == Sum(index, open) - open[0].length
    ensures Segs(open[1..]) == Segs(open)[1..]
  {
    assert Segs(open[1..]) == Segs(open)[1..];
    assert open[0].reader in Readers(open);
    forall r | r in Readers(open) && r != open[0].reader ensures r in Readers(open[1..]) {
      var j :| 0 <= j < |open| && open[j].reader == r;
      assert open[1..][j - 1].reader == r;
    }
    forall r | r in Readers(open[1..]) ensures r in Readers(open) && r != open[0].reader {
      var j :| 0 <= j < |open[1..]| && open[1..][j].reader == r;
      assert open[j + 1].reader == r;
    }
  }

  lemma SumOfOne(seg: nat, lengths: seq<nat>)
    requires seg < |lengths|
    ensures SumOf([seg], lengths) == lengths[seg]
  {
    assert [seg][1..] == [];
  }

  lemma ListAppended(index: seq<SegEntry>, blobs: seq<seq<byte>>, open: seq<OpenSeg>, ever: set<AssetReader>, held: OpenSeg)
    requires |blobs| == |index| && Listing(index, blobs, open, ever)
    requires held.seg < |index| && held.length == index[held.seg].length && held.reader.data == blobs[held.seg]
    requires held.reader !in ever && held.seg !in Segs(open)
    ensures Listing(index, blobs, open + [held], ever + {held.reader})
    ensures Readers(open + [held]) == Readers(open) + {held.reader} && Readers(open) <= ever
    ensures Sum(index, open + [held]) == Sum(index, open) + held.length
    ensures Segs(open + [held]) == Remove(Segs(open), held.seg) + [held.seg]
  {
    hide SumOf, Remove;
    var after := open + [held];
    assert Segs(after) == Segs(open) + [held.seg];
    RemoveAbsent(Segs(open), held.seg);
    SumConcat(Segs(open), [held.seg], Lengths(index));
    SumOfOne(held.seg, Lengths(index));
    forall r | r in Readers(open) ensures r in Readers(after) {
      var j :| 0 <= j < |open| && open[j].reader == r;
      assert after[j].reader == r;
    }
    assert after[|open|].reader == held.reader;
  }

  class MediaStreamReader {
    const index: seq<SegEntry>
    const blobs: seq<seq<byte>> // what the segments' blobs hold
    const size: nat
    const residency: int
    var pos: nat
    var open: seq<OpenSeg>          // LRU order, most-recently-used at the tail
    var openSz: int
    var closed: bool
    ghost var ever: set<AssetReader> // every reader ever opened
    ghost var history: seq<nat>      // every segment acquired, in order

    constructor (index: seq<SegEntry>, blobs: seq<seq<byte>>, size: nat, residency: int)
      requires Laid(index, Lengths(index)) && size == Total(Lengths(index))
      requires |blobs| == |index| && forall i | 0 <= i < |index| :: index[i].length <= |blobs[i]|
      ensures Valid() && pos == 0 && !closed && open == [] && ever == {} && history == []
      ensures this.index == index && this.blobs == blobs && this.size == size && this.residency == residency
    {
      this.index, this.blobs, this.size, this.residency := index, blobs, size, residency;
      pos, open, openSz, closed, ever, history := 0, [], 0, false, {}, [];
    }

    ghost predicate Layout() {
      && Laid(index, Lengths(index)) && size == Total(Lengths(index))
      && |blobs| == |index| && forall i | 0 <= i < |index| :: index[i].length <= |blobs[i]|
    }

    /** The bytes the stream serves. */
    ghost function Stream(): seq<byte>
      requires Layout()
    {
      Concat(blobs, Lengths(index))
    }

    /** Every listed reader is unclosed, every other reader ever opened has been closed exactly
        once, and openSz is what is open. */
    ghost predicate Books()
      reads `open, `openSz, `ever, ever
    {
      && Layout() && Listing(index, blobs, open, ever)
      && (forall r | r in ever :: r.closes == if r in Readers(open) then 0 else 1)
      && openSz == Sum(index, open)
    }

    ghost predicate Valid()
      reads this, ever
    {
      && Books()
      && Suffix(Segs(open), LastUse(history))
      && (|open| <= 1 || openSz <= residency)
      && (closed ==> open == [])
    }

    /** sort.Search for the first segment starting past position, less one; -1 if none covers it. */
    method SegmentAt(position: nat) returns (seg: int)
      requires Layout()
      ensures position < size ==> 0 <= seg < |index| && index[seg].offset <= position < index[seg].offset + index[seg].length
      ensures position >= size ==> seg == -1
    {
      var lo, hi := 0, |index|;
      while lo < hi
        invariant 0 <= lo <= hi <= |index|
        invariant forall i | 0 <= i < lo :: index[i].offset <= position
        invariant forall i | hi <= i < |index| :: index[i].offset > position
      {
        var mid := (lo + hi) / 2;
        if index[mid].offset > position {
          OffsetsAscend(mid);
          hi := mid;
        } else {
          OffsetsAscend(mid);
          lo := mid + 1;
        }
      }
      seg := lo - 1;
      Covers(position, seg);
      if seg < 0 {
        return -1;
      }
      var entry := index[seg];
      if position < entry.offset || position >= entry.offset + entry.length {
        return -1;
      }
    }

    lemma OffsetsAscend(mid: nat)
      requires Layout() && mid < |index|
      ensures forall i | 0 <= i <= mid :: index[i].offset <= index[mid].offset
      ensures forall i | mid <= i < |index| :: index[mid].offset <= index[i].offset
    {
      forall i, j | 0 <= i <= j < |index| ensures index[i].offset <= index[j].offset {
        TotalMonotone(Lengths(index), i, j);
      }
    }

    lemma Covers(position: nat, seg: int)
      requires Layout() && -1 <= seg < |index|
      requires seg >= 0 ==> index[seg].offset <= position
      requires seg + 1 < |index| ==> position < index[seg + 1].offset
      ensures position < size ==> seg >= 0 && position < index[seg].offset + index[seg].length
      ensures position >= size && seg >= 0 ==> position >= index[seg].offset + index[seg].length
    {
      var lengths := Lengths(index);
      assert lengths[..|index|] == lengths && lengths[..0] == [];
      if seg >= 0 {
        TotalNext(lengths, seg);
        TotalMonotone(lengths, seg + 1, |index|);
      }
    }

    method OpenBlob(seg: nat) returns (reader: AssetReader?)
      requires Layout() && seg < |index|
      ensures reader != null ==> fresh(reader) && reader.data == blobs[seg] && reader.closes == 0
    {
      var fails: bool :| true;
      if fails {
        return null;
      }
      reader := new AssetReader(blobs[seg]);
    }

    /** The open list once seg is the most recently used. */
    ghost function Touched(seg: nat): seq<nat>
      reads this
    {
      Remove(Segs(open), seg) + [seg]
    }

    /** An open reader for seg, most recently used; the least recently used are closed to stay within
        the budget.  None when the blob cannot be opened. */
    method Acquire(seg: nat) returns (r: Option<OpenSeg>)
      requires Valid() && !closed && seg < |index|
      modifies this, ever
      ensures Valid() && pos == old(pos) && closed == old(closed)
      ensures old(ever) <= ever && fresh(ever - old(ever))
      ensures r.None? ==> seg !in old(Segs(open)) && open == old(open) && history == old(history) && ever == old(ever)
      ensures r.Some? ==> open != [] && open[|open| - 1] == r.value && r.value.seg == seg
      ensures r.Some? ==> history == old(history) + [seg]
      ensures r.Some? ==> Below(old(Touched(seg)), |index|)
      ensures r.Some? ==> Segs(open) == KeepWithin(old(Touched(seg)), Lengths(index), residency)
    {
      hide Books, Remove, LastUse, Suffix, KeepWithin, Layout, SumOf, Below;
      Listed();
      UseNext(Segs(open), history, seg);
      var k := FindOpen(seg);
      if k >= 0 {
        r := Some(open[k]);
        Promote(k);
        Within();
        KeepAll(Segs(open), Lengths(index), residency);
        history := history + [seg];
        return;
      }
      r := AppendNew(seg);
      if r.Some? {
        history := history + [seg];
        EvictedSuffix(Segs(open), LastUse(history), Lengths(index), residency);
        Evict();
      }
    }

    /** Searches the open list from its tail. */
    method FindOpen(seg: nat) returns (k: int)
      ensures -1 <= k < |open|
      ensures k >= 0 ==> open[k].seg == seg
      ensures k == -1 ==> seg !in Segs(open)
    {
      k := |open| - 1;
      while k >= 0
        invariant -1 <= k < |open|
        invariant forall j | k < j < |open| :: open[j].seg != seg
      {
        if open[k].seg == seg {
          return;
        }
        k := k - 1;
      }
    }

    /** Rotates entry k to the tail. */
    method Promote(k: nat)
      requires Books() && k < |open|
      modifies `open
      ensures Books() && |open| == |old(open)| && open[|open| - 1] == old(open[k])
      ensures Segs(open) == old(Touched(open[k].seg))
    {
      hide Readers, Sum, Laid, Total, Remove;
      ListPromoted(index, blobs, open, ever, k);
      ghost var before := open;
      var held := open[k];
      if k != |open| - 1 {
        open := open[..k] + open[k + 1..] + [held];
      }
      assert open == before[..k] + before[k + 1..] + [before[k]];
    }

    /** Opens seg's blob and lists its reader at the tail. */
    method AppendNew(seg: nat) returns (r: Option<OpenSeg>)
      requires Books() && seg < |index| && seg !in Segs(open)
      modifies `open, `openSz, `ever
      ensures Books() && old(ever) <= ever && fresh(ever - old(ever))
      ensures r.None? ==> open == old(open) && openSz == old(openSz) && ever == old(ever)
      ensures r.Some? ==> open != [] && open[|open| - 1] == r.value && r.value.seg == seg
      ensures r.Some? ==> Segs(open) == old(Touched(seg))
    {
      hide Readers, Sum, Laid, Total, Remove;
      var reader := OpenBlob(seg);
      if reader == null {
        return None;
      }
      var held := OpenSeg(seg, index[seg].length, reader);
      ListAppended(index, blobs, open, ever, held);
      open := open + [held];
      openSz := openSz + held.length;
      ever := ever + {reader};
      return Some(held);
    }

    method Evict()
      requires Books() && open != []
      modifies `open, `openSz, ever
      ensures Books()
      ensures Below(old(Segs(open)), |index|) && Segs(open) == KeepWithin(old(Segs(open)), Lengths(index), residency)
      ensures open != [] && open[|open| - 1] == old(open[|open| - 1])
      ensures |open| <= 1 || openSz <= residency
    {
      hide Listing, Readers, SumOf, Layout, KeepWithin;
      Listed();
      ghost var segs := Segs(open);
      while openSz > residency && |open| > 1
        invariant Books() && open != [] && open[|open| - 1] == old(open[|open| - 1])
        invariant Below(Segs(open), |index|)
        invariant KeepWithin(Segs(open), Lengths(index), residency) == KeepWithin(segs, Lengths(index), residency)
        decreases |open|
      {
        var victim := open[0];
        KeepStep(Segs(open), Lengths(index), residency);
        ListDropped(index, blobs, open, ever);
        open := open[1..];
        openSz := openSz - victim.length;
        victim.reader.Close();
      }
      KeepAll(Segs(open), Lengths(index), residency);
    }

    lemma Listed()
      requires Books()
      ensures Layout() && Below(Segs(open), |index|)
    {
    }

    lemma Within()
      requires Books() && (|open| <= 1 || openSz <= residency)
      ensures Below(Segs(open), |index|) && (|open| <= 1 || SumOf(Segs(open), Lengths(index)) <= residency)
    {
    }

    /** Segment seg covers the position, and what it holds from there is the stream's. */
    lemma SegmentIsStream(seg: nat, position: nat)
      requires Layout() && seg < |index| && index[seg].offset <= position <= index[seg].offset + index[seg].length
      ensures |Stream()| == size && index[seg].offset + index[seg].length <= size
      ensures Stream()[position..index[seg].offset + index[seg].length]
        == blobs[seg][position - index[seg].offset..index[seg].length]
    {
      var lengths := Lengths(index);
      var from, to := index[seg].offset, index[seg].offset + index[seg].length;
      ConcatLength(blobs, lengths);
      ConcatAt(blobs, lengths, seg);
      assert Stream()[from..to] == blobs[seg][..index[seg].length];
      assert Stream()[position..to] == Stream()[from..to][position - from..];
    }

    lemma ServedBytes(seg: nat, intra: nat, n: nat)
      requires Layout() && seg < |index| && intra + n <= index[seg].length
      ensures |Stream()| == size && index[seg].offset + index[seg].length <= size && index[seg].length <= |blobs[seg]|
      ensures Stream()[index[seg].offset + intra..index[seg].offset + intra + n] == blobs[seg][intra..intra + n]
    {
      hide Stream;
      var entry := index[seg];
      SegmentIsStream(seg, entry.offset + intra);
      SliceStart(blobs[seg], Stream(), intra, entry.length, entry.offset + intra, entry.offset + entry.length, n);
    }

    /** Reads up to want bytes at the position, never past the segment that covers it. */
    method Read(want: nat) returns (got: seq<byte>, err: ReadError)
      requires Valid()
      modifies this, ever
      ensures Valid() && closed == old(closed) && old(ever) <= ever && fresh(ever - old(ever))
      ensures |got| <= want && pos == old(pos) + |got|
      ensures got != [] ==> pos <= |Stream()| && got == Stream()[old(pos)..pos]
      ensures err == NoError && want > 0 ==> got != []
      ensures err == EOF ==> pos >= size
      ensures err == ReaderClosed <==> closed
      ensures !closed && old(pos) >= size ==> err == EOF
      ensures err == ReaderClosed || err == OpenFailed ==> got == []
      ensures err == EOF && want > 0 && old(pos) < size ==> got != []
      ensures history == old(history) || exists seg: nat | seg < |index| ::
        index[seg].offset <= old(pos) < index[seg].offset + index[seg].length && history == old(history) + [seg]
    {
      hide Laid, SumOf, Remove, LastUse, KeepWithin, Concat, Total, Suffix, Listing, Sum, Readers, Segs, Stream;
      if closed {
        return [], ReaderClosed;
      }
      if pos >= size {
        return [], EOF;
      }
      var seg := SegmentAt(pos);
      var entry := index[seg];
      var held := Acquire(seg);
      if held.None? {
        return [], OpenFailed;
      }
      var intra := pos - entry.offset;
      ServedBytes(seg, intra, 0);
      LastIsOpen();
      got, err := ReadHeld(held.value.reader, intra, Min(want, entry.length - intra));
      ServedBytes(seg, intra, |got|);
      pos := pos + |got|;
      if err == EOF && pos < size {
        err := NoError;
      }
    }

    /** The most recently used reader is open and reads its own segment's blob. */
    lemma LastIsOpen()
      requires Books() && open != []
      ensures var held := open[|open| - 1];
        held.reader in ever && held.seg < |index| && held.reader.data == blobs[held.seg] && held.reader.closes == 0
    {
      assert open[|open| - 1].reader in Readers(open);
    }

    /** Seeks and reads the held reader; the caller does not ask past the segment. */
    method ReadHeld(reader: AssetReader, intra: nat, want: nat) returns (got: seq<byte>, err: ReadError)
      requires Valid() && reader in ever && intra < |reader.data|
      modifies ever
      ensures Valid()
      ensures |got| <= want && intra + |got| <= |reader.data| && got == reader.data[intra..intra + |got|]
      ensures err == NoError || err == EOF || err == BlobFailed
      ensures want > 0 && err != BlobFailed ==> got != []
    {
      hide Layout, Listing, Readers, Sum, Suffix, LastUse;
      var ok := reader.Seek(intra);
      if !ok {
        return [], BlobFailed;
      }
      got, err := reader.Read(want);
    }

    /** Lazy: the covering segment is opened on the next Read.  Whence counts from the start (0), the
        position (1) or the end (2); any other, or a negative result, is refused. */
    method Seek(offset: int, whence: int) returns (r: Option<nat>)
      requires Valid()
      modifies `pos
      ensures Valid()
      ensures var base := if whence == 0 then 0 else if whence == 1 then old(pos) else size;
        if 0 <= whence <= 2 && base + offset >= 0 then r == Some(base + offset) && pos == base + offset
        else r == None && pos == old(pos)
    {
      hide Books, Suffix, Segs, LastUse, Layout, Listing, Readers, Sum;
      var abs := 0;
      match whence {
        case 0 => abs := offset;
        case 1 => abs := pos + offset;
        case 2 => abs := size + offset;
        case _ => return None;
      }
      if abs < 0 {
        return None;
      }
      pos := abs;
      return Some(abs);
    }

    /** Leaves no reader open: every reader ever opened has been closed exactly once. */
    method Close()
      requires Valid()
      modifies this, ever
      ensures Valid() && closed && open == [] && openSz == 0 && ever == old(ever)
      ensures forall r | r in ever :: r.closes == 1
    {
      hide Suffix, LastUse, Laid, Total;
      closed := true;
      ghost var before := open;
      var i := 0;
      while i < |open|
        invariant i <= |open| && open == before && closed && ever == old(ever)
        invariant Layout() && Listing(index, blobs, open, ever)
        invariant forall r | r in ever :: r.closes == if r in Readers(open[i..]) then 0 else 1
      {
        RestListed(index, blobs, open, ever, i);
        open[i].reader.Close();
        i := i + 1;
      }
      assert open[i..] == [];
      open := [];
      openSz := 0;
      NothingListed(index, blobs, ever, LastUse(history));
    }

    /** io.ReadAll: reads want bytes at a time to the end.  From position p it yields exactly the
        stream's suffix from p. */
    method ReadAll(want: nat) returns (all: seq<byte>, err: ReadError)
      requires Valid() && want > 0
      modifies this, ever
      ensures Valid() && closed == old(closed)
      ensures err != NoError
      ensures pos == old(pos) + |all|
      ensures all != [] ==> pos <= |Stream()| && all == Stream()[old(pos)..pos]
      ensures err == EOF ==> |Stream()| == size && all == Stream()[Min(old(pos), size)..]
      ensures err == ReaderClosed <==> closed
    {
      hide Valid, Stream;
      StreamSize();
      all, err := [], NoError;
      ghost var start := pos;
      while err == NoError
        invariant Valid() && closed == old(closed) && old(ever) <= ever && fresh(ever - old(ever))
        invariant pos == start + |all|
        invariant all != [] ==> pos <= size && all == Stream()[start..pos]
        invariant err == EOF ==> pos >= size
        invariant err == ReaderClosed <==> err != NoError && closed
        decreases if err == NoError then 1 else 0, size - pos
      {
        var got;
        ghost var from := pos;
        got, err := Read(want);
        assert got != [] && all != [] ==> Stream()[start..from] + Stream()[from..pos] == Stream()[start..pos];
        all := all + got;
      }
    }

    lemma StreamSize()
      requires Valid()
      ensures Layout() && |Stream()| == size
    {
      ConcatLength(blobs, Lengths(index));
    }
  }

  lemma SliceStart(s: seq<byte>, t: seq<byte>, a: nat, b: nat, c: nat, d: nat, n: nat)
    requires a <= b <= |s| && c <= d <= |t| && s[a..b] == t[c..d] && n <= b - a
    ensures s[a..a + n] == t[c..c + n]
  {
    assert s[a..b][..n] == s[a..a + n] && t[c..d][..n] == t[c..c + n];
  }

  lemma RestListed(index: seq<SegEntry>, blobs: seq<seq<byte>>, open: seq<OpenSeg>, ever: set<AssetReader>, i: nat)
    requires |blobs| == |index| && Listing(index, blobs, open, ever) && i < |open|
    ensures open[i].reader in ever
    ensures Readers(open[i + 1..]) == Readers(open[i..]) - {open[i].reader} && open[i].reader in Readers(open[i..])
  {
    assert open[i..][0].reader == open[i].reader;
    forall r | r in Readers(open[i..]) && r != open[i].reader ensures r in Readers(open[i + 1..]) {
      var j :| 0 <= j < |open[i..]| && open[i..][j].reader == r;
      assert open[i + 1..][j - 1].reader == r;
    }
    forall r | r in Readers(open[i + 1..]) ensures r in Readers(open[i..]) && r != open[i].reader {
      var j :| 0 <= j < |open[i + 1..]| && open[i + 1..][j].reader == r;
      assert open[i..][j + 1].reader == r;
    }
  }

  lemma NothingListed(index: seq<SegEntry>, blobs: seq<seq<byte>>, ever: set<AssetReader>, used: seq<nat>)
    requires |blobs| == |index|
    ensures Listing(index, blobs, [], ever) && Readers([]) == {} && Sum(index, []) == 0 && Suffix(Segs([]), used)
  {
    assert Segs([]) == [];
  }

  /** A use moves the segment to the tail of the open list and of the last-use order alike. */
  lemma UseNext(open: seq<nat>, history: seq<nat>, seg: nat)
    requires Suffix(open, LastUse(history))
    ensures Suffix(Remove(open, seg) + [seg], LastUse(history + [seg]))
  {
    assert (history + [seg])[..|history|] == history;
    TouchKeepsSuffix(open, LastUse(history), seg);
  }

  lemma SuffixTransitive(a: seq<nat>, b: seq<nat>, c: seq<nat>)
    requires Suffix(a, b) && Suffix(b, c)
    ensures Suffix(a, c)
  {
    assert c[|c| - |a|..] == c[|c| - |b|..][|b| - |a|..];
  }

  lemma KeepAll(segs: seq<nat>, lengths: seq<nat>, residency: int)
    requires Below(segs, |lengths|) && (|segs| <= 1 || SumOf(segs, lengths) <= residency)
    ensures KeepWithin(segs, lengths, residency) == segs
  {
  }
}
