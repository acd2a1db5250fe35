/**
 * `buildFileName` (main.go:123-131): the output file is named after the last
 * `/`-separated element of the URL's path, as `strings.Split(path, "/")`
 * gives it. URL parsing itself happens before this model: its input is the
 * already parsed path.
 */
module FileName {

  /** No `/` in s. */
  predicate NoSlash(s: string) { forall i :: 0 <= i < |s| ==> s[i] != '/' }

  /** The elements joined back together with `/` between them. */
  function Join(elems: seq<string>): string
    requires |elems| > 0
  {
    if |elems| == 1 then elems[0] else Join(elems[..|elems| - 1]) + "/" + elems[|elems| - 1]
  }

  /**
   * `strings.Split(s, "/")`: the pieces of s between consecutive slashes. There is
   * always at least one piece, none holds a `/`, and joining them gives s back.
   */
  function Split(s: string): (elems: seq<string>)
    ensures |elems| > 0
    ensures forall i :: 0 <= i < |elems| ==> NoSlash(elems[i])
    ensures Join(elems) == s
  {
    if s == [] then [[]]
    else
      var init := Split(s[..|s| - 1]);
      var c := s[|s| - 1];
      var m := |init| - 1;
      assert s == s[..|s| - 1] + [c];
      if c == '/' then
        assert (init + [[]])[..m + 1] == init;
        assert Join(init + [[]]) == Join(init) + "/" + [];
        init + [[]]
      else
        JoinExtendLast(init, c);
        ExtendLast(init, c)
  }

  /** The elements with `c` appended to the last one. */
  function ExtendLast(elems: seq<string>, c: char): seq<string>
    requires |elems| > 0
  {
    elems[..|elems| - 1] + [elems[|elems| - 1] + [c]]
  }

  /** Appending a character that is not `/` extends the last element. */
  lemma JoinExtendLast(init: seq<string>, c: char)
    requires |init| > 0 && c != '/'
    requires forall i :: 0 <= i < |init| ==> NoSlash(init[i])
    ensures |ExtendLast(init, c)| == |init|
    ensures forall i :: 0 <= i < |init| ==> NoSlash(ExtendLast(init, c)[i])
    ensures Join(ExtendLast(init, c)) == Join(init) + [c]
  {
    var m := |init| - 1;
    var elems := ExtendLast(init, c);
    assert forall i :: 0 <= i < m ==> elems[i] == init[i];
    if m > 0 {
      assert elems[..m] == init[..m];
    }
  }

  /** The element of a path `buildFileName` takes: the last piece of the split. */
  function LastElement(path: string): (name: string)
    ensures AfterLastSlash(path, name)
  {
    var elems := Split(path);
    var n := |elems| - 1;
    if n > 0 then
      assert path == Join(elems[..n]) + "/" + elems[n];
      elems[n]
    else
      elems[0]
  }

  /** A path without `/` is its own last element. */
  lemma LastElementNoSlash(path: string)
    requires NoSlash(path)
    ensures LastElement(path) == path
  {
  }

  /** A path ending in `/` gives the empty name. */
  lemma LastElementTrailingSlash(path: string)
    requires |path| > 0 && path[|path| - 1] == '/'
    ensures LastElement(path) == ""
  {
  }

  /** A name is the text after the last `/` of path (all of path when it has no `/`). */
  predicate AfterLastSlash(path: string, name: string)
  {
    && NoSlash(name)
    && |name| <= |path| && path[|path| - |name|..] == name
    && (|name| < |path| ==> path[|path| - |name| - 1] == '/')
  }

  /** A slash-free suffix cannot reach past a `/` of the path. */
  lemma SlashFreeSuffixShort(path: string, name: string, i: nat)
    requires NoSlash(name) && |name| <= |path| && path[|path| - |name|..] == name
    requires i < |path| && path[i] == '/'
    ensures |name| < |path| - i
  {
  }

  /** There is only one such name: the last element is determined by that description alone. */
  lemma AfterLastSlashUnique(path: string, a: string, b: string)
    requires AfterLastSlash(path, a) && AfterLastSlash(path, b)
    ensures a == b
  {
    if |a| < |path| {
      SlashFreeSuffixShort(path, b, |path| - |a| - 1);
    }
    if |b| < |path| {
      SlashFreeSuffixShort(path, a, |path| - |b| - 1);
    }
  }

  /** The last element of dir/name is name, whatever dir is. */
  lemma LastElementAfterSlash(dir: string, name: string)
    requires NoSlash(name)
    ensures LastElement(dir + "/" + name) == name
  {
    var path := dir + "/" + name;
    assert path[|path| - |name|..] == name;
    assert path[|path| - |name| - 1] == '/';
    AfterLastSlashUnique(path, LastElement(path), name);
  }

  /** The URL https://host/path/to/archive.zip has path /path/to/archive.zip and names archive.zip. */
  lemma ArchiveExample()
    ensures LastElement("/path/to/archive.zip") == "archive.zip"
  {
    LastElementAfterSlash("/path/to", "archive.zip");
    assert "/path/to" + "/" + "archive.zip" == "/path/to/archive.zip";
  }
}
