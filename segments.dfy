/**
 * Segment planning: the byte ranges the downloader asks the server for.
 * For part j (1-based) of `parts`, main.go:93 sends the Range header
 * `bytes=<(j-1)*(size/parts)>-<j*(size/parts)-1>`, the inclusive
 * first-byte-pos / last-byte-pos form of section 2.1 of RFC 7233.
 * Go's `/` on non-negative operands truncates, as Dafny's does.
 */
module Segments {
  import opened Base
  import opened Decimal

  /** The part count the downloader is configured with (main.go:57). */
  const Parts: nat := 50

  /** Part `index` asks for bytes `first` to `last`, both inclusive. */
  datatype Segment = Segment(index: nat, first: int, last: int)

  predicate Contains(s: Segment, x: int) { s.first <= x <= s.last }

  /** The number of bytes a segment asks for (zero when last == first - 1). */
  function Length(s: Segment): int { s.last + 1 - s.first }

  /** A byte range is well formed in the sense of RFC 7233 section 2.1 when it does not end before it starts. */
  predicate WellFormed(s: Segment) { 0 <= s.first <= s.last }

  /**
   * A plan is a tiling: numbered 1, 2, ..., starting at byte 0, every segment of
   * non-negative length, and each one beginning just past the end of the previous.
   */
  predicate Contiguous(plan: seq<Segment>)
  {
    && |plan| > 0
    && plan[0].first == 0
    && (forall k :: 0 <= k < |plan| ==> plan[k].index == k + 1 && Length(plan[k]) >= 0)
    && (forall k :: 0 < k < |plan| ==> plan[k].first == plan[k - 1].last + 1)
  }

  /** Some segment of the plan asks for byte x. */
  predicate Covered(plan: seq<Segment>, x: int)
  {
    exists k :: 0 <= k < |plan| && Contains(plan[k], x)
  }

  /** One past the last byte a plan covers. */
  function End(plan: seq<Segment>): int
    requires |plan| > 0
  {
    plan[|plan| - 1].last + 1
  }

  /** The bytes each part is asked for: the size divided by the part count, truncated. */
  function Chunk(size: nat, parts: nat): (c: nat)
    requires parts > 0
    ensures parts * c <= size < parts * (c + 1)
    ensures parts * c == size - size % parts
  {
    size / parts
  }

  /** Segment j of a download of `size` bytes in `parts` parts, as main.go:93 computes it. */
  function SegmentOf(size: nat, parts: nat, j: nat): (s: Segment)
    requires 1 <= j <= parts
    ensures s.index == j && s.first >= 0
    ensures Length(s) == Chunk(size, parts)
    ensures s.last < size
    ensures j == 1 ==> s.first == 0
  {
    var c := Chunk(size, parts);
    assert j * c <= parts * c by { MulMonotone(j, parts, c); }
    Segment(j, (j - 1) * c, j * c - 1)
  }

  lemma MulMonotone(a: nat, b: nat, c: nat)
    requires a <= b
    ensures a * c <= b * c
  {
    assert b * c == a * c + (b - a) * c;
  }

  /** The segments the loop at main.go:82-116 launches, in launch order (i = 1 .. parts). */
  function Plan(size: nat, parts: nat): (plan: seq<Segment>)
    requires parts > 0
    ensures |plan| == parts
    ensures Contiguous(plan)
    ensures End(plan) == parts * Chunk(size, parts)
    ensures End(plan) <= size
  {
    seq(parts, k requires 0 <= k < parts => SegmentOf(size, parts, k + 1))
  }

  /** Part i as the loop at main.go:93 writes it, with c = size / parts, is entry i - 1 of the plan. */
  lemma LaunchedSegment(size: nat, parts: nat, i: nat)
    requires 1 <= i <= parts
    ensures Segment(i, (i - 1) * (size / parts), (size / parts) * i - 1) == Plan(size, parts)[i - 1]
  {
    var c := size / parts;
    assert c == Chunk(size, parts);
    assert c * i == i * c;
  }

  /** The Range header value of one segment: `bytes=%v-%v` at main.go:93. */
  function RangeHeader(s: Segment): (h: string)
    ensures |h| >= 9 && h[..6] == "bytes="
  {
    "bytes=" + IntToDecimal(s.first) + "-" + IntToDecimal(s.last)
  }

  /** The first position of `c` in `s`, or |s| when there is none. */
  function IndexOf(s: string, c: char): (i: nat)
    ensures i <= |s|
    ensures i < |s| ==> s[i] == c
    ensures forall k :: 0 <= k < i ==> s[k] != c
  {
    if s == [] then 0 else if s[0] == c then 0 else 1 + IndexOf(s[1..], c)
  }

  /**
   * Reads a header value of the form `bytes=<first>-<last>` back into its two
   * printed integers. It does not check that they form a valid range.
   */
  function ParseRange(h: string): Option<(int, int)>
  {
    if |h| < 6 || h[..6] != "bytes=" then None
    else
      var spec := h[6..];
      var k := IndexOf(spec, '-');
      if k == |spec| then None
      else
        match (ParseInt(spec[..k]), ParseInt(spec[k + 1..]))
        case (Some(a), Some(b)) => Some((a, b))
        case _ => None
  }

  /** `requests` holds the Range header of each segment of `plan`, in order. */
  predicate HeadersOf(requests: seq<string>, plan: seq<Segment>)
  {
    |requests| == |plan| && forall k :: 0 <= k < |plan| ==> requests[k] == RangeHeader(plan[k])
  }

  lemma HeadersStep(requests: seq<string>, plan: seq<Segment>, n: nat)
    requires n < |plan|
    requires HeadersOf(requests, plan[..n])
    ensures HeadersOf(requests + [RangeHeader(plan[n])], plan[..n + 1])
  {
  }

  /** A Range header carries exactly the segment's first and last byte positions. */
  lemma RangeHeaderRoundTrip(s: Segment)
    requires s.first >= 0
    ensures ParseRange(RangeHeader(s)) == Some((s.first, s.last))
  {
    var a, b := IntToDecimal(s.first), IntToDecimal(s.last);
    var h := RangeHeader(s);
    var spec := a + "-" + b;
    assert h[..6] == "bytes=" && h[6..] == spec by {
      assert h == "bytes=" + spec;
    }
    IndexOfAfterDigits(a, b);
    ParseIntToDecimal(s.first);
    ParseIntToDecimal(s.last);
  }

  /** In digits, a dash and then anything, the first dash is the one after the digits. */
  lemma IndexOfAfterDigits(a: string, b: string)
    requires AllDigits(a)
    ensures IndexOf(a + "-" + b, '-') == |a|
    ensures (a + "-" + b)[..|a|] == a && (a + "-" + b)[|a| + 1..] == b
  {
    var spec := a + "-" + b;
    assert spec[|a|] == '-';
    assert forall k :: 0 <= k < |a| ==> spec[k] == a[k] && IsDigit(a[k]);
  }

  // ---------------------------------------------------------------------------
  // What any contiguous plan covers

  lemma {:induction false} StartsAscend(plan: seq<Segment>, a: nat, b: nat)
    requires Contiguous(plan) && a < b < |plan|
    ensures plan[a].last < plan[b].first
    decreases b - a
  {
    if a + 1 < b {
      StartsAscend(plan, a + 1, b);
    }
  }

  /** Segments of a contiguous plan are pairwise disjoint. */
  lemma Disjoint(plan: seq<Segment>, a: nat, b: nat, x: int)
    requires Contiguous(plan) && a < |plan| && b < |plan|
    requires Contains(plan[a], x) && Contains(plan[b], x)
    ensures a == b
  {
    if a < b {
      StartsAscend(plan, a, b);
    } else if b < a {
      StartsAscend(plan, b, a);
    }
  }

  /** Every segment of a contiguous plan lies inside [0, End(plan)). */
  lemma {:induction false} WithinEnd(plan: seq<Segment>, k: nat)
    requires Contiguous(plan) && k < |plan|
    ensures 0 <= plan[k].first && plan[k].last < End(plan)
  {
    if k + 1 < |plan| {
      StartsAscend(plan, k, |plan| - 1);
    }
    if k > 0 {
      StartsAscend(plan, 0, k);
    }
  }

  /** Every byte of [0, End(plan)) lies in some segment of a contiguous plan. */
  lemma {:induction false} FindSegment(plan: seq<Segment>, x: int) returns (k: nat)
    requires Contiguous(plan) && 0 <= x < End(plan)
    ensures k < |plan| && Contains(plan[k], x)
  {
    var m := |plan| - 1;
    if x >= plan[m].first {
      k := m;
    } else {
      var prefix := plan[..m];
      assert Contiguous(prefix);
      k := FindSegment(prefix, x);
    }
  }

  /**
   * A contiguous plan partitions [0, End(plan)): a byte lies in some segment
   * exactly when it is in that interval, and then in only one.
   */
  lemma Partition(plan: seq<Segment>)
    requires Contiguous(plan)
    ensures forall x :: Covered(plan, x) <==> 0 <= x < End(plan)
    ensures forall a, b, x :: 0 <= a < |plan| && 0 <= b < |plan| && Contains(plan[a], x) && Contains(plan[b], x) ==> a == b
  {
    forall x ensures Covered(plan, x) <==> 0 <= x < End(plan) {
      if 0 <= x < End(plan) {
        var k := FindSegment(plan, x);
      }
      forall k | 0 <= k < |plan| && Contains(plan[k], x) ensures 0 <= x < End(plan) {
        WithinEnd(plan, k);
      }
    }
    forall a, b, x | 0 <= a < |plan| && 0 <= b < |plan| && Contains(plan[a], x) && Contains(plan[b], x)
      ensures a == b
    {
      Disjoint(plan, a, b, x);
    }
  }

  // ---------------------------------------------------------------------------
  // The plan as written, and what it leaves out

  /**
   * The downloader's ranges cover exactly the first size - size % parts bytes:
   * all of the resource when parts divides size, and otherwise never its last
   * size % parts bytes.
   */
  lemma CoverageGap(size: nat, parts: nat)
    requires parts > 0
    ensures End(Plan(size, parts)) == size - size % parts
    ensures End(Plan(size, parts)) == size <==> size % parts == 0
    ensures forall x :: 0 <= x < size ==> (Covered(Plan(size, parts), x) <==> x < size - size % parts)
  {
    Partition(Plan(size, parts));
  }

  /**
   * Every range is well formed exactly when there are at least as many bytes as
   * parts; otherwise each header reads `bytes=0--1`.
   */
  lemma WellFormedIff(size: nat, parts: nat)
    requires parts > 0
    ensures (forall k :: 0 <= k < parts ==> WellFormed(Plan(size, parts)[k])) <==> size >= parts
    ensures size < parts ==> forall k :: 0 <= k < parts ==> RangeHeader(Plan(size, parts)[k]) == "bytes=0--1"
  {
    var plan := Plan(size, parts);
    if size < parts {
      assert Chunk(size, parts) == 0;
      assert !WellFormed(plan[0]);
      forall k | 0 <= k < parts ensures RangeHeader(plan[k]) == "bytes=0--1" {
        assert plan[k].first == 0 && plan[k].last == -1;
        assert IntToDecimal(0) == "0";
        assert IntToDecimal(-1) == "-1";
      }
    } else {
      assert Chunk(size, parts) >= 1;
    }
  }

  /** With 1000 bytes in 10 parts, every part is 100 bytes: part 1 is 0-99, part 10 is 900-999. */
  lemma EvenSplitExample()
    ensures Plan(1000, 10)[0] == Segment(1, 0, 99)
    ensures Plan(1000, 10)[9] == Segment(10, 900, 999)
    ensures End(Plan(1000, 10)) == 1000
  {
  }

  /** With 1005 bytes in 50 parts, the last range is 980-999 and bytes 1000-1004 are never requested. */
  lemma TrailingBytesDropped()
    ensures Plan(1005, Parts)[Parts - 1] == Segment(Parts, 980, 999)
    ensures forall x, k :: 1000 <= x < 1005 && 0 <= k < Parts ==> !Contains(Plan(1005, Parts)[k], x)
  {
    CoverageGap(1005, Parts);
  }

  // ---------------------------------------------------------------------------
  // The corrected planner: the last range extends to the last byte

  /** Part j under the corrected planner: as written, except that the last part ends at byte size - 1. */
  function CoveringSegmentOf(size: nat, parts: nat, j: nat): (s: Segment)
    requires 1 <= j <= parts
    ensures s.index == j && s.first >= 0 && Length(s) >= 0
    ensures j < parts ==> s == SegmentOf(size, parts, j)
    ensures j == parts ==> s.last == size - 1 && Length(s) == Chunk(size, parts) + size % parts
  {
    if j == parts then
      var c := Chunk(size, parts);
      assert (parts - 1) * c <= size by { MulMonotone(parts - 1, parts, c); }
      Segment(j, (j - 1) * c, size - 1)
    else SegmentOf(size, parts, j)
  }

  /** The planner with the last range extended to byte size - 1. */
  function CoveringPlan(size: nat, parts: nat): (plan: seq<Segment>)
    requires parts > 0
    ensures |plan| == parts
    ensures forall k :: 0 <= k < parts - 1 ==> plan[k] == SegmentOf(size, parts, k + 1)
    ensures plan[parts - 1].last == size - 1
    ensures Length(plan[parts - 1]) == Chunk(size, parts) + size % parts
  {
    seq(parts, k requires 0 <= k < parts => CoveringSegmentOf(size, parts, k + 1))
  }

  /** The corrected plan is a tiling that ends at `size`. */
  lemma CoveringPlanContiguous(size: nat, parts: nat)
    requires parts > 0
    ensures Contiguous(CoveringPlan(size, parts))
    ensures End(CoveringPlan(size, parts)) == size
  {
    CoveringSegmentsAdjoin(size, parts);
    var plan := CoveringPlan(size, parts);
    assert forall k :: 0 <= k < parts ==> plan[k] == CoveringSegmentOf(size, parts, k + 1);
  }

  /** Each corrected segment begins just past the end of the one before it. */
  lemma CoveringSegmentsAdjoin(size: nat, parts: nat)
    requires parts > 0
    ensures forall j :: 1 < j <= parts ==>
      CoveringSegmentOf(size, parts, j).first == CoveringSegmentOf(size, parts, j - 1).last + 1
  {
    var c := Chunk(size, parts);
    forall j | 1 < j <= parts
      ensures CoveringSegmentOf(size, parts, j).first == CoveringSegmentOf(size, parts, j - 1).last + 1
    {
      assert (j - 1) * c == (j - 2) * c + c;
    }
  }

  /** The corrected ranges partition the whole resource [0, size). */
  lemma CoveringPlanPartitions(size: nat, parts: nat)
    requires parts > 0
    ensures forall x :: Covered(CoveringPlan(size, parts), x) <==> 0 <= x < size
  {
    CoveringPlanContiguous(size, parts);
    Partition(CoveringPlan(size, parts));
  }

  /** With 1005 bytes in 50 parts the corrected last range is 980-1004. */
  lemma CoveringExample()
    ensures CoveringPlan(1005, Parts)[Parts - 1] == Segment(Parts, 980, 1004)
  {
  }

  // ---------------------------------------------------------------------------
  // Reassembly

  predicate InBounds(plan: seq<Segment>, n: nat)
  {
    forall k :: 0 <= k < |plan| ==> 0 <= plan[k].first <= plan[k].last + 1 <= n
  }

  /** The bytes of `r` a segment asks for. */
  function Assigned<T>(r: seq<T>, s: Segment): seq<T>
    requires 0 <= s.first <= s.last + 1 <= |r|
  {
    r[s.first..s.last + 1]
  }

  /** The bytes of `r` each segment asks for, concatenated in plan order. */
  function Assemble<T>(r: seq<T>, plan: seq<Segment>): seq<T>
    requires InBounds(plan, |r|)
  {
    if plan == [] then [] else Assemble(r, plan[..|plan| - 1]) + Assigned(r, plan[|plan| - 1])
  }

  /** A contiguous plan stays inside any resource it does not run past. */
  lemma ContiguousInBounds(plan: seq<Segment>, n: nat)
    requires Contiguous(plan) && End(plan) <= n
    ensures InBounds(plan, n)
  {
    forall k | 0 <= k < |plan| ensures 0 <= plan[k].first <= plan[k].last + 1 <= n {
      WithinEnd(plan, k);
    }
  }

  /** A non-empty proper prefix of a contiguous plan is contiguous and ends where the next segment starts. */
  lemma ContiguousPrefix(plan: seq<Segment>, m: nat)
    requires Contiguous(plan) && 0 < m < |plan|
    ensures Contiguous(plan[..m]) && End(plan[..m]) == plan[m].first
  {
  }

  /** Concatenating what a contiguous plan asks for, in order, gives the prefix it covers. */
  lemma {:induction false} AssembleContiguous<T>(r: seq<T>, plan: seq<Segment>)
    requires Contiguous(plan) && End(plan) <= |r|
    ensures InBounds(plan, |r|)
    ensures Assemble(r, plan) == r[..End(plan)]
  {
    ContiguousInBounds(plan, |r|);
    var m := |plan| - 1;
    var last := plan[m];
    if m == 0 {
      assert Assemble(r, plan) == Assemble(r, plan[..0]) + Assigned(r, last);
    } else {
      var prefix := plan[..m];
      ContiguousPrefix(plan, m);
      AssembleContiguous(r, prefix);
      assert Assemble(r, plan) == r[..last.first] + r[last.first..last.last + 1];
      assert r[..End(plan)] == r[..last.first] + r[last.first..End(plan)];
    }
  }
}
