/**
 * `FilesToBytes` and `FilesToFile` (main.go:173-209): concatenate, in order,
 * the contents of every file each source pattern matches, giving up at the
 * first source that cannot be expanded, matches nothing, or has a match that
 * cannot be read. Pattern expansion and file reading are abstracted as a
 * map `fs` that tells, for a source, what expanding it yields.
 */
module Concat {
  import opened Base

  /** One matched file: its contents, or a read error. */
  datatype File = Readable(data: seq<byte>) | Unreadable

  /** What expanding one source gives: a malformed pattern, or the matched files in order. */
  datatype Expansion = BadPattern | Matched(files: seq<File>)

  /** The error `FilesToBytes` returns, with the source it arose on. */
  datatype Error =
    | BadPatternError(source: string)
    | NotFound(source: string)  // "cannot find " + source
    | ReadError(source: string)

  /**
   * What `filepath.Glob` followed by `ioutil.ReadFile` gives for each pattern;
   * a pattern the map does not mention matches no file.
   */
  type FileSystem = map<string, Expansion>

  function Glob(fs: FileSystem, pattern: string): Expansion
  {
    if pattern in fs then fs[pattern] else Matched([])
  }

  /** The pair `FilesToBytes` returns: the bytes gathered so far and the error, if any. */
  datatype Outcome = Outcome(bytes: seq<byte>, err: Option<Error>)

  /** What `FilesToFile` does: report the error, or write `data` to the file `name`. */
  datatype WriteResult = Failed(error: Error) | Written(name: string, data: seq<byte>)

  // ---------------------------------------------------------------------------
  // The specification of the loops

  /** The inner loop (main.go:188-197): append each match to `acc`, stopping at the first unreadable one. */
  function ReadAll(acc: seq<byte>, files: seq<File>, source: string): Outcome
  {
    if files == [] then Outcome(acc, None)
    else
      var prev := ReadAll(acc, files[..|files| - 1], source);
      if prev.err.Some? then prev
      else match files[|files| - 1]
        case Readable(d) => Outcome(prev.bytes + d, None)
        case Unreadable => Outcome(prev.bytes, Some(ReadError(source)))
  }

  /** One round of the outer loop (main.go:180-197) for one source. */
  function Expand(acc: seq<byte>, source: string, e: Expansion): Outcome
  {
    match e
    case BadPattern => Outcome(acc, Some(BadPatternError(source)))
    case Matched(files) =>
      if files == [] then Outcome(acc, Some(NotFound(source))) else ReadAll(acc, files, source)
  }

  /** What `FilesToBytes` returns for the sources `src`. */
  function Concatenate(src: seq<string>, fs: FileSystem): Outcome
  {
    if src == [] then Outcome([], None)
    else
      var prev := Concatenate(src[..|src| - 1], fs);
      if prev.err.Some? then prev else Expand(prev.bytes, src[|src| - 1], Glob(fs, src[|src| - 1]))
  }

  // ---------------------------------------------------------------------------
  // The reference: plain concatenation, with no error handling

  predicate AllReadable(files: seq<File>)
  {
    forall i :: 0 <= i < |files| ==> files[i].Readable?
  }

  /** A source resolves when its pattern is valid and matches at least one file, all readable. */
  predicate Resolves(e: Expansion)
  {
    e.Matched? && |e.files| > 0 && AllReadable(e.files)
  }

  /** The readable contents of `files`, in order. */
  function Flatten(files: seq<File>): seq<byte>
  {
    if files == [] then []
    else Flatten(files[..|files| - 1]) + (match files[|files| - 1] case Readable(d) => d case Unreadable => [])
  }

  /** The contents of every file every source matches, in source order and then match order. */
  function Contents(src: seq<string>, fs: FileSystem): seq<byte>
  {
    if src == [] then []
    else
      var e := Glob(fs, src[|src| - 1]);
      Contents(src[..|src| - 1], fs) + (if e.Matched? then Flatten(e.files) else [])
  }

  lemma {:induction false} ReadAllReadable(acc: seq<byte>, files: seq<File>, source: string)
    requires AllReadable(files)
    ensures ReadAll(acc, files, source) == Outcome(acc + Flatten(files), None)
  {
    if files != [] {
      var init := files[..|files| - 1];
      assert AllReadable(init) by {
        assert forall i :: 0 <= i < |init| ==> init[i] == files[i];
      }
      ReadAllReadable(acc, init, source);
      assert Flatten(files) == Flatten(init) + files[|files| - 1].data;
    }
  }

  lemma {:induction false} ReadAllFailsIff(acc: seq<byte>, files: seq<File>, source: string)
    ensures ReadAll(acc, files, source).err.None? <==> AllReadable(files)
    ensures ReadAll(acc, files, source).err.Some? ==> ReadAll(acc, files, source).err == Some(ReadError(source))
  {
    if files != [] {
      ReadAllFailsIff(acc, files[..|files| - 1], source);
      if !AllReadable(files[..|files| - 1]) {
        var i :| 0 <= i < |files| - 1 && !files[..|files| - 1][i].Readable?;
        assert !files[i].Readable?;
      }
    }
  }

  /** When every source resolves, the result is the in-order concatenation of all contents and no error. */
  lemma {:induction false} ConcatenateResolved(src: seq<string>, fs: FileSystem)
    requires forall i :: 0 <= i < |src| ==> Resolves(Glob(fs, src[i]))
    ensures Concatenate(src, fs) == Outcome(Contents(src, fs), None)
  {
    if src != [] {
      var n := |src| - 1;
      ConcatenateResolved(src[..n], fs);
      ReadAllReadable(Contents(src[..n], fs), Glob(fs, src[n]).files, src[n]);
    }
  }

  /** `FilesToBytes` succeeds exactly when every source resolves. */
  lemma {:induction false} ConcatenateSucceedsIff(src: seq<string>, fs: FileSystem)
    ensures Concatenate(src, fs).err.None? <==> forall i :: 0 <= i < |src| ==> Resolves(Glob(fs, src[i]))
  {
    if src != [] {
      var n := |src| - 1;
      ConcatenateSucceedsIff(src[..n], fs);
      var prev := Concatenate(src[..n], fs);
      if prev.err.None? {
        var e := Glob(fs, src[n]);
        if e.Matched? && e.files != [] {
          ReadAllFailsIff(prev.bytes, e.files, src[n]);
        }
      } else {
        var i :| 0 <= i < n && !Resolves(Glob(fs, src[..n][i]));
        assert src[..n][i] == src[i];
      }
    }
  }

  /** Once an error has occurred, later sources are not looked at. */
  lemma {:induction false} ErrorStops(a: seq<string>, b: seq<string>, fs: FileSystem)
    requires Concatenate(a, fs).err.Some?
    ensures Concatenate(a + b, fs) == Concatenate(a, fs)
  {
    if b != [] {
      var n := |b| - 1;
      assert (a + b)[..|a + b| - 1] == a + b[..n];
      ErrorStops(a, b[..n], fs);
    } else {
      assert a + b == a;
    }
  }

  /**
   * When source k is the first that does not resolve, the result is the error
   * that source gives, together with everything read before it: all of the
   * earlier sources and, for a read error, the readable matches that precede it.
   */
  lemma FirstFailure(src: seq<string>, fs: FileSystem, k: nat)
    requires k < |src|
    requires forall i :: 0 <= i < k ==> Resolves(Glob(fs, src[i]))
    requires !Resolves(Glob(fs, src[k]))
    ensures Concatenate(src, fs) == Expand(Contents(src[..k], fs), src[k], Glob(fs, src[k]))
    ensures Concatenate(src, fs).err.Some?
  {
    FailureUpTo(src, fs, k);
    ExpandFailsIff(Contents(src[..k], fs), src[k], Glob(fs, src[k]));
    ErrorStopsAt(src, fs, k + 1);
  }

  /** `ErrorStops` for a prefix of `src`. */
  lemma ErrorStopsAt(src: seq<string>, fs: FileSystem, n: nat)
    requires n <= |src|
    requires Concatenate(src[..n], fs).err.Some?
    ensures Concatenate(src, fs) == Concatenate(src[..n], fs)
  {
    ErrorStops(src[..n], src[n..], fs);
    assert src[..n] + src[n..] == src;
  }

  /**
   * A source that matches nothing, after sources that all resolved, gives
   * `cannot find` together with the contents of the earlier sources.
   */
  lemma MissingSource(src: seq<string>, fs: FileSystem, k: nat)
    requires k < |src|
    requires forall i :: 0 <= i < k ==> Resolves(Glob(fs, src[i]))
    requires Glob(fs, src[k]) == Matched([])
    ensures Concatenate(src, fs) == Outcome(Contents(src[..k], fs), Some(NotFound(src[k])))
  {
    FirstFailure(src, fs, k);
  }

  lemma FailureUpTo(src: seq<string>, fs: FileSystem, k: nat)
    requires k < |src|
    requires forall i :: 0 <= i < k ==> Resolves(Glob(fs, src[i]))
    ensures Concatenate(src[..k + 1], fs) == Expand(Contents(src[..k], fs), src[k], Glob(fs, src[k]))
  {
    PrefixResolved(src, fs, k);
    assert src[..k + 1][..k] == src[..k] && src[..k + 1][k] == src[k];
  }

  lemma PrefixResolved(src: seq<string>, fs: FileSystem, k: nat)
    requires k <= |src|
    requires forall i :: 0 <= i < k ==> Resolves(Glob(fs, src[i]))
    ensures Concatenate(src[..k], fs) == Outcome(Contents(src[..k], fs), None)
  {
    assert forall i :: 0 <= i < k ==> src[..k][i] == src[i];
    ConcatenateResolved(src[..k], fs);
  }

  /** Expanding one source fails exactly when it does not resolve. */
  lemma ExpandFailsIff(acc: seq<byte>, source: string, e: Expansion)
    ensures Expand(acc, source, e).err.None? <==> Resolves(e)
  {
    if e.Matched? && e.files != [] {
      ReadAllFailsIff(acc, e.files, source);
    }
  }

  // ---------------------------------------------------------------------------
  // The loops

  /**
   * main.go:175-200. The delimiter `del` is accepted and not used: the
   * result does not depend on it.
   */
  method FilesToBytes(del: string, src: seq<string>, fs: FileSystem) returns (tmp: seq<byte>, err: Option<Error>)
    ensures Outcome(tmp, err) == Concatenate(src, fs)
  {
    tmp := [];
    for j := 0 to |src|
      invariant Concatenate(src[..j], fs) == Outcome(tmp, None)
    {
      assert src[..j + 1][..j] == src[..j];
      var e := Glob(fs, src[j]);
      if e.BadPattern? {
        err := Some(BadPatternError(src[j]));
        ErrorStops(src[..j + 1], src[j + 1..], fs);
        assert src[..j + 1] + src[j + 1..] == src;
        return;
      }
      var matches := e.files;
      if |matches| == 0 {
        err := Some(NotFound(src[j]));
        ErrorStops(src[..j + 1], src[j + 1..], fs);
        assert src[..j + 1] + src[j + 1..] == src;
        return;
      }
      ghost var before := tmp;
      for m := 0 to |matches|
        invariant ReadAll(before, matches[..m], src[j]) == Outcome(tmp, None)
      {
        assert matches[..m + 1][..m] == matches[..m];
        match matches[m]
        case Unreadable =>
          err := Some(ReadError(src[j]));
          assert matches[..m + 1] == matches[..m] + [matches[m]];
          assert ReadAll(before, matches[..m + 1], src[j]) == Outcome(tmp, err);
          ghost var rest := matches[m + 1..];
          assert ReadAll(before, matches, src[j]) == Outcome(tmp, err) by {
            ReadAllErrorStops(before, matches[..m + 1], rest, src[j]);
            assert matches[..m + 1] + rest == matches;
          }
          ErrorStops(src[..j + 1], src[j + 1..], fs);
          assert src[..j + 1] + src[j + 1..] == src;
          return;
        case Readable(d) =>
          tmp := tmp + d;
      }
      assert matches[..|matches|] == matches;
    }
    assert src[..|src|] == src;
    err := None;
  }

  lemma {:induction false} ReadAllErrorStops(acc: seq<byte>, a: seq<File>, b: seq<File>, source: string)
    requires ReadAll(acc, a, source).err.Some?
    ensures ReadAll(acc, a + b, source) == ReadAll(acc, a, source)
  {
    if b != [] {
      var n := |b| - 1;
      assert (a + b)[..|a + b| - 1] == a + b[..n];
      ReadAllErrorStops(acc, a, b[..n], source);
    } else {
      assert a + b == a;
    }
  }

  /** main.go:203-209: write the concatenation to `filename`, unless `FilesToBytes` failed. */
  method FilesToFile(filename: string, del: string, src: seq<string>, fs: FileSystem) returns (r: WriteResult)
    ensures r.Written? <==> forall i :: 0 <= i < |src| ==> Resolves(Glob(fs, src[i]))
    ensures r.Written? ==> r == Written(filename, Contents(src, fs))
    ensures r.Failed? ==> Concatenate(src, fs).err == Some(r.error)
  {
    var con, err := FilesToBytes(del, src, fs);
    ConcatenateSucceedsIff(src, fs);
    if err.Some? {
      return Failed(err.value);
    }
    ConcatenateResolved(src, fs);
    r := Written(filename, con);
  }
}
