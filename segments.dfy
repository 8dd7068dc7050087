/** Path and URL pieces: Python's `s.split(sep)` for a one-character separator, the
    `s.split(sep)[-1]` idiom riddle.py uses for extensions and file names, and
    `os.path.join` with two arguments. */
module Segments {

  /** `s.split(sep)` in Python: the maximal runs between separators, always at least one
      (possibly empty) piece. */
  function Split(s: string, sep: char): (parts: seq<string>)
    ensures |parts| >= 1
    ensures forall k :: 0 <= k < |parts| ==> sep !in parts[k]
  {
    if s == [] then [[]]
    else
      var init := Split(s[..|s| - 1], sep);
      var c := s[|s| - 1];
      if c == sep then init + [[]]
      else init[..|init| - 1] + [init[|init| - 1] + [c]]
  }

  /** `sep.join(parts)` in Python. */
  function Join(parts: seq<string>, sep: char): string
    requires |parts| >= 1
  {
    if |parts| == 1 then parts[0]
    else Join(parts[..|parts| - 1], sep) + [sep] + parts[|parts| - 1]
  }

  /** Splitting loses nothing: joining the pieces back with the separator gives the input. */
  lemma {:induction false} JoinSplit(s: string, sep: char)
    ensures Join(Split(s, sep), sep) == s
  {
    if s != [] {
      var s' := s[..|s| - 1];
      var init := Split(s', sep);
      JoinSplit(s', sep);
      var c := s[|s| - 1];
      var parts := Split(s, sep);
      assert s' + [c] == s;
      if c != sep {
        var n := |init|;
        assert parts == init[..n - 1] + [init[n - 1] + [c]];
        if n == 1 {
          assert parts == [init[0] + [c]];
          assert Join(parts, sep) == init[0] + [c];
        } else {
          assert parts[..n - 1] == init[..n - 1];
          assert Join(parts, sep) == Join(init[..n - 1], sep) + [sep] + (init[n - 1] + [c]);
          assert Join(init, sep) == Join(init[..n - 1], sep) + [sep] + init[n - 1];
        }
      } else {
        assert parts == init + [[]];
        assert parts[..|parts| - 1] == init;
        assert Join(parts, sep) == Join(init, sep) + [sep] + [];
      }
    }
  }

  /** The text after the last `sep` in `s`, or all of `s` when it holds no `sep`:
      the longest suffix of `s` free of `sep`. */
  function LastSegment(s: string, sep: char): (r: string)
    ensures |r| <= |s| && r == s[|s| - |r|..]
    ensures sep !in r
    ensures |r| < |s| ==> s[|s| - |r| - 1] == sep
  {
    if s == [] then []
    else if s[|s| - 1] == sep then []
    else LastSegment(s[..|s| - 1], sep) + [s[|s| - 1]]
  }

  /** `s.split(sep)[-1]` is exactly `LastSegment(s, sep)`. */
  lemma {:induction false} LastOfSplit(s: string, sep: char)
    ensures Split(s, sep)[|Split(s, sep)| - 1] == LastSegment(s, sep)
  {
    if s != [] && s[|s| - 1] != sep {
      LastOfSplit(s[..|s| - 1], sep);
    }
  }

  /** A string with no separator is its own last segment. */
  lemma LastSegmentNoSeparator(s: string, sep: char)
    requires sep !in s
    ensures LastSegment(s, sep) == s
  {
  }

  /** `r` is a suffix of `s` free of `sep` that is either all of `s` or preceded by `sep`. */
  predicate IsLastSegment(r: string, s: string, sep: char)
  {
    |r| <= |s| && r == s[|s| - |r|..] && sep !in r && (|r| < |s| ==> s[|s| - |r| - 1] == sep)
  }

  /** Only one string has that shape: the last segment is determined by it. */
  lemma LastSegmentUnique(s: string, sep: char)
    ensures forall e :: IsLastSegment(e, s, sep) ==> e == LastSegment(s, sep)
  {
    var r := LastSegment(s, sep);
    forall e | IsLastSegment(e, s, sep)
      ensures e == r
    {
    }
  }

  /** `url.split('.')[-1]`: the extension test of riddle.py, taken on the whole URL. */
  function Extension(url: string): (ext: string)
    ensures IsLastSegment(ext, url, '.')
  {
    LastSegment(url, '.')
  }

  /** `url.split('/')[-1]`: the file name a URL is stored under. */
  function Basename(url: string): (name: string)
    ensures IsLastSegment(name, url, '/')
  {
    LastSegment(url, '/')
  }

  /** `os.path.join(dir, name)` on POSIX: an absolute `name` replaces `dir`; otherwise a
      `/` is inserted unless `dir` is empty or already ends with one. */
  function JoinPath(dir: string, name: string): (path: string)
    ensures |name| > 0 && name[0] == '/' ==> path == name
    ensures !(|name| > 0 && name[0] == '/') ==> |path| >= |dir| && path[..|dir|] == dir
    ensures |path| >= |name| && path[|path| - |name|..] == name
  {
    if |name| > 0 && name[0] == '/' then name
    else if dir == [] || dir[|dir| - 1] == '/' then dir + name
    else dir + "/" + name
  }

  /** Within one directory, two names that contain no `/` are joined to the same path
      exactly when they are equal. */
  lemma JoinPathInjective(dir: string, a: string, b: string)
    requires '/' !in a && '/' !in b
    ensures JoinPath(dir, a) == JoinPath(dir, b) <==> a == b
  {
    if JoinPath(dir, a) == JoinPath(dir, b) {
      assert a == JoinPath(dir, a)[|JoinPath(dir, a)| - |a|..];
    }
  }
}
