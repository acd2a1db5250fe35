/**
 * The downloader's state and its two phases (main.go:24-171): `putFile`
 * launches one fetch per part and records where each part was saved in
 * `downloadedFiles`; `merge` lists the saved parts in part order and hands
 * them to `FilesToFile`. The fetches run concurrently in the program; here
 * they are launched in a loop and then complete one after another in an
 * arbitrary order, given as a parameter.
 */
module Download {
  import opened Base
  import opened Segments
  import opened Concat
  import opened FileName

  /** The staging directory the parts are saved in (main.go:56). */
  const StagingDir: string := ".downloads"

  /** The part numbers 1, 2, ..., n. */
  function Indices(n: nat): seq<int> { seq(n, k => k + 1) }

  /** `order` lists the parts in the order their fetches finish: each of 1..n exactly once. */
  predicate IsCompletionOrder(order: seq<int>, n: nat)
  {
    multiset(order) == multiset(Indices(n))
  }

  lemma CompletionOrderMembers(order: seq<int>, n: nat)
    requires IsCompletionOrder(order, n)
    ensures |order| == n
    ensures forall j :: j in order <==> 1 <= j <= n
  {
    assert |multiset(order)| == |multiset(Indices(n))|;
    forall j ensures j in order <==> 1 <= j <= n {
      assert j in order <==> j in multiset(order);
      assert j in Indices(n) <==> j in multiset(Indices(n));
      if 1 <= j <= n {
        assert Indices(n)[j - 1] == j;
      }
    }
  }

  predicate InRange(order: seq<int>, n: nat)
  {
    forall k :: 0 <= k < |order| ==> 1 <= order[k] <= n
  }

  /**
   * The table after the parts in `order` have recorded, one after another,
   * `downloadedFiles[j] = paths[j-1]` (main.go:107-108), starting from t.
   */
  function Recorded(t: map<int, string>, order: seq<int>, paths: seq<string>): map<int, string>
    requires InRange(order, |paths|)
  {
    if order == [] then t
    else
      var j := order[|order| - 1];
      Recorded(t, order[..|order| - 1], paths)[j := paths[j - 1]]
  }

  /** Each write sets its own part's entry and leaves every other entry alone. */
  lemma {:induction false} RecordedWrites(t: map<int, string>, order: seq<int>, paths: seq<string>)
    requires InRange(order, |paths|)
    ensures forall j :: j in Recorded(t, order, paths) <==> j in t || j in order
    ensures forall j :: j in order ==> Recorded(t, order, paths)[j] == paths[j - 1]
    ensures forall j :: j in t && j !in order ==> Recorded(t, order, paths)[j] == t[j]
  {
    if order != [] {
      var n := |order| - 1;
      RecordedWrites(t, order[..n], paths);
      assert order == order[..n] + [order[n]];
      forall j ensures j in order <==> j in order[..n] || j == order[n] {
        if j in order {
          var i :| 0 <= i < |order| && order[i] == j;
          if i < n { assert order[..n][i] == j; }
        }
      }
    }
  }

  /** The table a complete download leaves: part j saved under paths[j-1]. */
  function SegmentTable(paths: seq<string>): map<int, string>
  {
    map j | 1 <= j <= |paths| :: PathOf(paths, j)
  }

  /** The name part j saved its bytes under. */
  function PathOf(paths: seq<string>, j: int): string
    requires 1 <= j <= |paths|
  {
    paths[j - 1]
  }

  /** Whatever the order the parts finish in, the table ends up the same. */
  lemma RecordedInAnyOrder(t: map<int, string>, order: seq<int>, paths: seq<string>)
    requires IsCompletionOrder(order, |paths|)
    ensures InRange(order, |paths|)
    ensures Recorded(t, order, paths) == t + SegmentTable(paths)
  {
    CompletionOrderMembers(order, |paths|);
    assert forall k :: 0 <= k < |order| ==> order[k] in order;
    RecordedWrites(t, order, paths);
    var r, s := Recorded(t, order, paths), t + SegmentTable(paths);
    assert r.Keys == s.Keys;
    forall j | j in r ensures r[j] == s[j] {
    }
  }

  /** `downloadedFiles[i]` in Go: the empty string for a part that recorded nothing. */
  function Lookup(t: map<int, string>, i: int): string
  {
    if i in t then t[i] else ""
  }

  /** A part that recorded no name contributes the source `dir + "/"`: the directory itself. */
  lemma MissingPartSource(dir: string, t: map<int, string>, n: nat, k: nat)
    requires k < n && k + 1 !in t
    ensures SourceList(dir, t, n)[k] == dir + "/"
  {
  }

  /**
   * So a part that recorded no name makes the merge fail: `dir + "/"` expands
   * to the directory itself, which cannot be read as a file.
   */
  lemma MissingPartFails(dir: string, t: map<int, string>, n: nat, k: nat, fs: FileSystem)
    requires k < n && k + 1 !in t
    requires !Resolves(Glob(fs, dir + "/"))
    ensures Concatenate(SourceList(dir, t, n), fs).err.Some?
  {
    MissingPartSource(dir, t, n, k);
    ConcatenateSucceedsIff(SourceList(dir, t, n), fs);
  }

  /** The sources `merge` builds (main.go:164-166): one per part, in part order. */
  function SourceList(dir: string, t: map<int, string>, n: nat): seq<string>
  {
    seq(n, k requires 0 <= k < n => dir + "/" + Lookup(t, k + 1))
  }

  /**
   * The list of sources does not depend on the order the parts finished in:
   * its k-th entry is always the file part k + 1 was saved in.
   */
  lemma MergeListOrderIndependent(dir: string, o1: seq<int>, o2: seq<int>, paths: seq<string>)
    requires IsCompletionOrder(o1, |paths|) && IsCompletionOrder(o2, |paths|)
    ensures InRange(o1, |paths|) && InRange(o2, |paths|)
    ensures SourceList(dir, Recorded(map[], o1, paths), |paths|) == SourceList(dir, Recorded(map[], o2, paths), |paths|)
    ensures forall k :: 0 <= k < |paths| ==> SourceList(dir, Recorded(map[], o1, paths), |paths|)[k] == dir + "/" + paths[k]
  {
    RecordedInAnyOrder(map[], o1, paths);
    RecordedInAnyOrder(map[], o2, paths);
    assert map[] + SegmentTable(paths) == SegmentTable(paths);
    SourceListOfTable(dir, paths);
  }

  lemma SourceListOfTable(dir: string, paths: seq<string>)
    ensures forall k :: 0 <= k < |paths| ==> SourceList(dir, SegmentTable(paths), |paths|)[k] == dir + "/" + paths[k]
  {
    forall k | 0 <= k < |paths| ensures SourceList(dir, SegmentTable(paths), |paths|)[k] == dir + "/" + paths[k] {
      assert k + 1 in SegmentTable(paths) && SegmentTable(paths)[k + 1] == PathOf(paths, k + 1);
    }
  }

  /** The downloader's package state (main.go:29-35) that its two phases update. */
  class Downloader {
    const dirName: string := StagingDir
    const parts: nat := Parts
    var fileName: string
    var downloadedFiles: map<int, string>

    /** main.go:60: an empty table; the name is set by BuildFileName. */
    constructor ()
      ensures fileName == "" && downloadedFiles == map[]
    {
      fileName := "";
      downloadedFiles := map[];
    }

    /** main.go:123-131, on the already parsed URL path. */
    method BuildFileName(path: string)
      modifies this`fileName
      ensures fileName == LastElement(path)
    {
      var segments := Split(path);
      fileName := segments[|segments| - 1];
    }

    /**
     * main.go:79-121. The loop launches part i = 1 .. parts with its Range
     * header; then the parts finish in `order`, each recording the name it
     * saved its bytes under (`paths[j-1]` for part j).
     */
    method PutFile(fileSize: nat, order: seq<int>, paths: seq<string>) returns (requests: seq<string>)
      requires |paths| == parts
      requires IsCompletionOrder(order, parts)
      modifies this`downloadedFiles
      ensures |requests| == parts
      ensures forall k :: 0 <= k < parts ==> requests[k] == RangeHeader(Plan(fileSize, parts)[k])
      ensures downloadedFiles == old(downloadedFiles) + SegmentTable(paths)
    {
      requests := Launch(fileSize);
      Complete(order, paths);
    }

    /** The launching loop (main.go:82-117): the Range header of each part, in launch order. */
    method Launch(fileSize: nat) returns (requests: seq<string>)
      ensures |requests| == parts
      ensures forall k :: 0 <= k < parts ==> requests[k] == RangeHeader(Plan(fileSize, parts)[k])
    {
      requests := [];
      var i := 1;
      while i <= parts
        invariant 1 <= i <= parts + 1
        invariant HeadersOf(requests, Plan(fileSize, parts)[..i - 1])
      {
        var c := fileSize / parts;
        var segment := Segment(i, (i - 1) * c, c * i - 1);
        LaunchedSegment(fileSize, parts, i);
        HeadersStep(requests, Plan(fileSize, parts), i - 1);
        requests := requests + [RangeHeader(segment)];
        i := i + 1;
      }
      assert Plan(fileSize, parts)[..parts] == Plan(fileSize, parts);
    }

    /** The parts finishing in `order`, each writing its entry of the table under the lock (main.go:107-108). */
    method Complete(order: seq<int>, paths: seq<string>)
      requires |paths| == parts
      requires IsCompletionOrder(order, parts)
      modifies this`downloadedFiles
      ensures downloadedFiles == old(downloadedFiles) + SegmentTable(paths)
    {
      CompletionOrderMembers(order, parts);
      assert forall k :: 0 <= k < |order| ==> order[k] in order;
      for k := 0 to parts
        invariant InRange(order[..k], |paths|)
        invariant downloadedFiles == Recorded(old(downloadedFiles), order[..k], paths)
      {
        var j := order[k];
        assert order[..k + 1][..k] == order[..k];
        downloadedFiles := downloadedFiles[j := paths[j - 1]];
      }
      assert order[..parts] == order;
      RecordedInAnyOrder(old(downloadedFiles), order, paths);
    }

    /**
     * main.go:156-171: list the saved parts in part order and concatenate
     * them into the output file. The error is printed in Go; here it is returned.
     */
    method Merge(fs: FileSystem) returns (files: seq<string>, result: WriteResult)
      ensures files == SourceList(dirName, downloadedFiles, parts)
      ensures result.Written? <==> forall i :: 0 <= i < |files| ==> Resolves(Glob(fs, files[i]))
      ensures result.Written? ==> result == Written(fileName, Contents(files, fs))
      ensures result.Failed? ==> Concatenate(files, fs).err == Some(result.error)
    {
      files := [];
      for i := 1 to parts + 1
        invariant |files| == i - 1
        invariant forall k :: 0 <= k < i - 1 ==> files[k] == dirName + "/" + Lookup(downloadedFiles, k + 1)
      {
        files := files + [dirName + "/" + Lookup(downloadedFiles, i)];
      }
      result := FilesToFile(fileName, "", files, fs);
    }
  }

  // ---------------------------------------------------------------------------
  // Reassembly

  /** Each part's file holds exactly the bytes of `resource` its segment asks for. */
  predicate Fetched(fs: FileSystem, src: seq<string>, resource: seq<byte>, plan: seq<Segment>)
  {
    && |src| == |plan|
    && forall k {:trigger PartFetched(fs, src[k], resource, plan[k])} ::
         0 <= k < |plan| ==> PartFetched(fs, src[k], resource, plan[k])
  }

  /** The file `name` holds exactly the bytes of `resource` that segment s asks for. */
  predicate PartFetched(fs: FileSystem, name: string, resource: seq<byte>, s: Segment)
  {
    0 <= s.first <= s.last + 1 <= |resource| && Glob(fs, name) == Matched([Readable(Assigned(resource, s))])
  }

  lemma ContentsOfSegments(fs: FileSystem, src: seq<string>, resource: seq<byte>, plan: seq<Segment>)
    requires Fetched(fs, src, resource, plan)
    ensures InBounds(plan, |resource|)
    ensures forall k :: 0 <= k < |src| ==> Resolves(Glob(fs, src[k]))
    ensures Contents(src, fs) == Assemble(resource, plan)
  {
    forall k | 0 <= k < |plan|
      ensures 0 <= plan[k].first <= plan[k].last + 1 <= |resource|
      ensures Resolves(Glob(fs, src[k]))
    {
      assert PartFetched(fs, src[k], resource, plan[k]);
    }
    ContentsOfPrefix(fs, src, resource, plan, |src|);
    assert src[..|src|] == src && plan[..|plan|] == plan;
  }

  lemma {:induction false} ContentsOfPrefix(fs: FileSystem, src: seq<string>, resource: seq<byte>, plan: seq<Segment>, n: nat)
    requires Fetched(fs, src, resource, plan) && InBounds(plan, |resource|) && n <= |src|
    ensures InBounds(plan[..n], |resource|)
    ensures Contents(src[..n], fs) == Assemble(resource, plan[..n])
  {
    PrefixInBounds(plan, |resource|, n);
    if n > 0 {
      ContentsOfPrefix(fs, src, resource, plan, n - 1);
      assert PartFetched(fs, src[n - 1], resource, plan[n - 1]);
      var d := Assigned(resource, plan[n - 1]);
      ContentsStep(fs, src, n, d);
      AssembleStep(resource, plan, n);
    }
  }

  lemma PrefixInBounds(plan: seq<Segment>, len: nat, n: nat)
    requires InBounds(plan, len) && n <= |plan|
    ensures InBounds(plan[..n], len)
  {
    assert forall k :: 0 <= k < n ==> plan[..n][k] == plan[k];
  }

  lemma ContentsStep(fs: FileSystem, src: seq<string>, n: nat, d: seq<byte>)
    requires 0 < n <= |src| && Glob(fs, src[n - 1]) == Matched([Readable(d)])
    ensures Contents(src[..n], fs) == Contents(src[..n - 1], fs) + d
  {
    assert src[..n][..n - 1] == src[..n - 1] && src[..n][n - 1] == src[n - 1];
    assert Flatten([Readable(d)]) == Flatten([]) + d;
  }

  lemma AssembleStep(resource: seq<byte>, plan: seq<Segment>, n: nat)
    requires InBounds(plan, |resource|) && 0 < n <= |plan|
    ensures InBounds(plan[..n], |resource|) && InBounds(plan[..n - 1], |resource|)
    ensures Assemble(resource, plan[..n]) == Assemble(resource, plan[..n - 1]) + Assigned(resource, plan[n - 1])
  {
    PrefixInBounds(plan, |resource|, n);
    PrefixInBounds(plan, |resource|, n - 1);
    assert plan[..n][..n - 1] == plan[..n - 1] && plan[..n][n - 1] == plan[n - 1];
  }

  /** Concatenating the parts of a contiguous plan, in part order, gives the prefix the plan covers. */
  lemma MergeOfPlan(fs: FileSystem, src: seq<string>, resource: seq<byte>, plan: seq<Segment>)
    requires Contiguous(plan) && End(plan) <= |resource|
    requires Fetched(fs, src, resource, plan)
    ensures 0 <= End(plan)
    ensures Concatenate(src, fs) == Outcome(resource[..End(plan)], None)
  {
    ContentsOfSegments(fs, src, resource, plan);
    ConcatenateResolved(src, fs);
    AssembleContiguous(resource, plan);
  }

  /** The staging file of each part, in part order. */
  function PartSources(paths: seq<string>): seq<string>
  {
    seq(|paths|, k requires 0 <= k < |paths| => StagingDir + "/" + paths[k])
  }

  /** Whatever the completion order, `merge` lists every part's staging file in part order. */
  lemma MergeSources(order: seq<int>, paths: seq<string>)
    requires IsCompletionOrder(order, |paths|)
    ensures InRange(order, |paths|)
    ensures SourceList(StagingDir, Recorded(map[], order, paths), |paths|) == PartSources(paths)
  {
    MergeListOrderIndependent(StagingDir, order, order, paths);
  }

  /** Part files that hold the ranges main.go:93 asks for merge to the first size - size % 50 bytes. */
  lemma MergeAsWritten(fs: FileSystem, src: seq<string>, resource: seq<byte>)
    requires Fetched(fs, src, resource, Plan(|resource|, Parts))
    ensures Concatenate(src, fs) == Outcome(resource[..|resource| - |resource| % Parts], None)
  {
    var plan := Plan(|resource|, Parts);
    MergeOfPlan(fs, src, resource, plan);
    assert End(plan) == |resource| - |resource| % Parts;
  }

  /**
   * The sizes at which every part the downloader sends is either a well-formed
   * range or asks for nothing from an empty resource: below `Parts` bytes every
   * header is `bytes=0--1`, which is not a valid range, and a server either
   * ignores it (200 and the whole file) or rejects it (416 and an error body).
   * Size 0 sends the same header; the premise that its part files are empty
   * holds only for a server that ignores it.
   */
  predicate HonouredSize(size: nat) { size == 0 || size >= Parts }

  /**
   * The whole pipeline as written: whatever order the parts finish in, when
   * each part's file holds the bytes its Range header asks for, the merge
   * yields the first |resource| - |resource| % 50 bytes of the resource, and
   * so the whole resource exactly when 50 divides its size. Sizes of 1 to
   * 49 bytes are excluded: there every header is `bytes=0--1`, which is not a
   * valid range, so the premise about the part files says nothing real.
   */
  lemma ReassemblyAsWritten(resource: seq<byte>, order: seq<int>, paths: seq<string>, fs: FileSystem)
    requires |paths| == Parts && IsCompletionOrder(order, Parts)
    requires HonouredSize(|resource|)
    requires Fetched(fs, PartSources(paths), resource, Plan(|resource|, Parts))
    ensures InRange(order, Parts)
    ensures Concatenate(SourceList(StagingDir, Recorded(map[], order, paths), Parts), fs)
         == Outcome(resource[..|resource| - |resource| % Parts], None)
    ensures Concatenate(SourceList(StagingDir, Recorded(map[], order, paths), Parts), fs).bytes == resource
        <==> |resource| % Parts == 0
  {
    MergeSources(order, paths);
    MergeAsWritten(fs, PartSources(paths), resource);
    var end := |resource| - |resource| % Parts;
    if |resource| % Parts != 0 {
      assert |resource[..end]| < |resource|;
    } else {
      assert resource[..end] == resource;
    }
  }

  /**
   * The same pipeline with the corrected planner, whose last range extends to
   * the last byte: the merge yields the whole resource, in any completion order.
   * Sizes of 1 to 49 bytes are excluded as above (parts 1 to 49 still send
   * `bytes=0--1`).
   */
  lemma ReassemblyCovering(resource: seq<byte>, order: seq<int>, paths: seq<string>, fs: FileSystem)
    requires |paths| == Parts && IsCompletionOrder(order, Parts)
    requires HonouredSize(|resource|)
    requires Fetched(fs, PartSources(paths), resource, CoveringPlan(|resource|, Parts))
    ensures InRange(order, Parts)
    ensures Concatenate(SourceList(StagingDir, Recorded(map[], order, paths), Parts), fs) == Outcome(resource, None)
  {
    MergeSources(order, paths);
    CoveringPlanContiguous(|resource|, Parts);
    MergeOfPlan(fs, PartSources(paths), resource, CoveringPlan(|resource|, Parts));
    assert resource[..|resource|] == resource;
  }
}
