/**
  The pure string fallbacks of src/tauri-api.js, used when the native path API
  is absent: `joinPaths` joins its arguments with `/` and then squeezes every
  run of slashes to one, and `getBasename` keeps what follows the last `/`.
 */
module Paths {
  import opened Text

  predicate IsSlash(c: char) {
    c == '/'
  }

  /** `replace(/\/+/g, '/')` */
  function CollapseSlashes(s: string): (r: string)
    ensures Isolated(r, IsSlash)
    ensures Without(r, IsSlash) == Without(s, IsSlash)
  {
    CollapseRunsKeeps(s, IsSlash, '/');
    CollapseRuns(s, IsSlash, '/')
  }

  /** The fallback of `joinPaths(base, ...parts)`. The result never holds two
      slashes in a row and keeps every other character of the plain join, in
      order. */
  function JoinPaths(base: string, parts: seq<string>): (r: string)
    ensures forall i :: 0 < i < |r| ==> !(r[i - 1] == '/' && r[i] == '/')
    ensures Without(r, IsSlash) == Without(Join([base] + parts, "/"), IsSlash)
  {
    CollapseSlashes(Join([base] + parts, "/"))
  }

  /** A run of slashes between two other characters, or at either end, becomes
      exactly one slash, and each side is squeezed on its own. */
  lemma CollapseSlashesAround(x: string, w: string, y: string)
    requires w != [] && All(w, IsSlash)
    requires x == [] || x[|x| - 1] != '/'
    requires y == [] || y[0] != '/'
    ensures CollapseSlashes(x + w + y) == CollapseSlashes(x) + "/" + CollapseSlashes(y)
  {
    CollapseRunsAround(x, w, y, IsSlash, '/');
  }

  /** A directory ending in a slash joined with a name starting with one: the
      three slashes at the seam become one. */
  lemma JoinPathsSeam(x: string, y: string)
    requires Isolated(x, IsSlash) && (x == [] || x[|x| - 1] != '/')
    requires y != [] && '/' !in y
    ensures JoinPaths(x + "/", ["/" + y]) == x + "/" + y
  {
    var parts := [x + "/"] + ["/" + y];
    assert parts[1..] == ["/" + y];
    assert Join(parts, "/") == x + "///" + y;
    CollapseSlashesAround(x, "///", y);
    CollapseRunsFixed(x, IsSlash, '/');
    SegmentIsolated(y);
    CollapseRunsFixed(y, IsSlash, '/');
  }

  /** A path segment: non-empty and free of `/`. */
  predicate IsSegment(s: string) {
    s != [] && '/' !in s
  }

  /** Slash-free, non-empty segments joined with `/` have no doubled slash and
      neither start nor end with one. */
  lemma {:induction false} SegmentsJoin(parts: seq<string>)
    requires forall i :: 0 <= i < |parts| ==> IsSegment(parts[i])
    ensures Isolated(Join(parts, "/"), IsSlash)
    ensures |parts| > 0 ==> var s := Join(parts, "/");
      s != [] && !IsSlash(s[0]) && !IsSlash(s[|s| - 1])
    decreases |parts|
  {
    if |parts| == 1 {
      SegmentIsolated(parts[0]);
      assert parts[0][0] in parts[0];
      assert parts[0][|parts[0]| - 1] in parts[0];
    } else if |parts| > 1 {
      var head, tail := parts[0], Join(parts[1..], "/");
      SegmentsJoin(parts[1..]);
      SegmentIsolated(head);
      assert head[|head| - 1] in head;
      assert head[0] in head;
      IsolatedConcat(head, "/", IsSlash);
      IsolatedConcat(head + "/", tail, IsSlash);
      assert Join(parts, "/") == head + "/" + tail;
    }
  }

  lemma SegmentIsolated(s: string)
    requires '/' !in s
    ensures Isolated(s, IsSlash)
  {
    forall i | 0 < i < |s| ensures !IsSlash(s[i]) {
      assert s[i] in s;
    }
  }

  /** When the base has no doubled slash and does not end in one, and every
      other part is a segment, the join is the plain `/`-separated join. */
  lemma JoinPathsPlain(base: string, parts: seq<string>)
    requires Isolated(base, IsSlash) && (base == [] || base[|base| - 1] != '/')
    requires forall i :: 0 <= i < |parts| ==> IsSegment(parts[i])
    ensures JoinPaths(base, parts) == Join([base] + parts, "/")
  {
    var s := Join([base] + parts, "/");
    if parts == [] {
      assert s == base;
    } else {
      var tail := Join(parts, "/");
      SegmentsJoin(parts);
      assert ([base] + parts)[1..] == parts;
      assert s == base + "/" + tail;
      IsolatedConcat(base, "/", IsSlash);
      IsolatedConcat(base + "/", tail, IsSlash);
    }
    CollapseRunsFixed(s, IsSlash, '/');
  }

  /** With no extra parts the base comes back with its slash runs squeezed; it
      comes back unchanged exactly when it has no doubled slash. */
  lemma JoinPathsAlone(base: string)
    ensures JoinPaths(base, []) == CollapseSlashes(base)
    ensures JoinPaths(base, []) == base <==> Isolated(base, IsSlash)
  {
    assert [base] + [] == [base];
    if Isolated(base, IsSlash) {
      CollapseRunsFixed(base, IsSlash, '/');
    }
  }

  /** Squeezing slashes twice is squeezing them once. */
  lemma CollapseSlashesIdempotent(s: string)
    ensures CollapseSlashes(CollapseSlashes(s)) == CollapseSlashes(s)
  {
    CollapseRunsIdempotent(s, IsSlash, '/');
  }

  /** Joining an already joined path with nothing changes nothing. */
  lemma JoinPathsIdempotent(base: string, parts: seq<string>)
    ensures JoinPaths(JoinPaths(base, parts), []) == JoinPaths(base, parts)
  {
    JoinPathsAlone(JoinPaths(base, parts));
  }

  /** The fallback of `getBasename(path)`: the last `/`-separated piece. It is
      the longest suffix of the path without a slash. */
  function Basename(path: string): (r: string)
    ensures '/' !in r
    ensures |r| <= |path| && path[|path| - |r|..] == r
    ensures |r| < |path| ==> path[|path| - |r| - 1] == '/'
    ensures '/' !in path ==> r == path
    ensures path != [] && path[|path| - 1] == '/' ==> r == []
  {
    LastPiece(path);
    Split(path, "/")[|Split(path, "/")| - 1]
  }

  /** The last piece of the split follows the last slash. */
  lemma LastPiece(path: string)
    ensures var parts := Split(path, "/"); var n := |parts| - 1;
      && '/' !in parts[n]
      && (n == 0 ==> path == parts[n])
      && (n > 0 ==> path == Join(parts[..n], "/") + "/" + parts[n])
  {
    var parts := Split(path, "/");
    var n := |parts| - 1;
    SplitFreeOf(path, '/');
    if n > 0 {
      JoinAppend(parts[..n], [parts[n]], "/");
      assert parts[..n] + [parts[n]] == parts;
    }
  }

  /** The basename of anything, a slash, and a slash-free piece is the piece. */
  lemma BasenameAfterSlash(prefix: string, name: string)
    requires '/' !in name
    ensures Basename(prefix + "/" + name) == name
  {
    SplitAround(prefix, name, '/');
    SplitWithout(name, '/');
  }

  /** The basename of a directory joined with a segment is that segment. */
  lemma BasenameOfJoin(dir: string, name: string)
    requires IsSegment(name)
    ensures Basename(JoinPaths(dir, [name])) == name
  {
    var x := dir + "/";
    var y := CollapseSlashes(x);
    assert JoinPaths(dir, [name]) == y + name by {
      assert Join([dir] + [name], "/") == x + name by {
        assert ([dir] + [name])[1..] == [name];
      }
      assert forall i :: 0 <= i < |name| ==> !IsSlash(name[i]) by {
        forall i | 0 <= i < |name| ensures !IsSlash(name[i]) {
          assert name[i] in name;
        }
      }
      CollapseRunsAppend(x, name, IsSlash, '/');
    }
    assert y != [] && y[|y| - 1] == '/' by {
      CollapseRunsLast(x, IsSlash, '/');
    }
    var y' := y[..|y| - 1];
    assert y + name == y' + "/" + name by {
      assert y == y' + "/";
    }
    BasenameAfterSlash(y', name);
  }
}
