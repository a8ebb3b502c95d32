/**
  String primitives the exporter relies on: JavaScript white space,
  `String.prototype.trim`, `split` and `join` on a literal separator, and the
  "replace every run of a character class by one character" rewrite performed by
  `replace(/\s+/g, ' ')` and `replace(/\/+/g, '/')`.
 */
module Text {
  import opened Wrappers

  /** The characters JavaScript treats as white space: the ones `trim` strips and
      the regular-expression class `\s` matches (WhiteSpace and LineTerminator). */
  predicate IsSpace(c: char) {
    || c == ' ' || c == '\t' || c == '\n' || c == '\r'
    || c == '\U{000B}' || c == '\U{000C}' || c == '\U{00A0}' || c == '\U{1680}'
    || ('\U{2000}' <= c <= '\U{200A}')
    || c == '\U{2028}' || c == '\U{2029}' || c == '\U{202F}' || c == '\U{205F}'
    || c == '\U{3000}' || c == '\U{FEFF}'
  }

  predicate All(s: string, p: char -> bool) {
    forall i :: 0 <= i < |s| ==> p(s[i])
  }

  /** No white space at either end. */
  predicate IsTrimmed(s: string) {
    s == [] || (!IsSpace(s[0]) && !IsSpace(s[|s| - 1]))
  }

  /** No two neighbouring characters both belong to the class `p`. */
  predicate Isolated(s: string, p: char -> bool) {
    forall i :: 0 < i < |s| ==> !(p(s[i - 1]) && p(s[i]))
  }

  /** The characters of `s` outside the class `p`, in order. */
  function Without(s: string, p: char -> bool): (r: string)
    ensures |r| <= |s|
    ensures All(s, p) <==> r == []
  {
    if s == [] then []
    else (if p(s[0]) then [] else [s[0]]) + Without(s[1..], p)
  }

  lemma {:induction false} WithoutAppend(a: string, b: string, p: char -> bool)
    ensures Without(a + b, p) == Without(a, p) + Without(b, p)
  {
    if a == [] {
      assert a + b == b;
    } else {
      assert (a + b)[0] == a[0] && (a + b)[1..] == a[1..] + b;
      WithoutAppend(a[1..], b, p);
      Reassociate(if p(a[0]) then [] else [a[0]], Without(a[1..], p), Without(b, p));
    }
  }

  // ---------------------------------------------------------------------------
  // Trimming

  /** The length of the longest prefix of `s` made of characters in `p`. */
  function LeadingRun(s: string, p: char -> bool): (k: nat)
    ensures k <= |s| && forall i :: 0 <= i < k ==> p(s[i])
    ensures k < |s| ==> !p(s[k])
    decreases |s|
  {
    if s != [] && p(s[0]) then
      var k := LeadingRun(s[1..], p);
      assert forall i :: 0 < i < |s| ==> s[i] == s[1..][i - 1];
      k + 1
    else 0
  }

  /** The length of the longest suffix of `s` made of characters in `p`. */
  function TrailingRun(s: string, p: char -> bool): (k: nat)
    ensures k <= |s| && forall i :: |s| - k <= i < |s| ==> p(s[i])
    ensures k < |s| ==> !p(s[|s| - k - 1])
    decreases |s|
  {
    if s != [] && p(s[|s| - 1]) then
      var k := TrailingRun(s[..|s| - 1], p);
      assert forall i :: 0 <= i < |s| - 1 ==> s[i] == s[..|s| - 1][i];
      k + 1
    else 0
  }

  lemma AllAppend(a: string, b: string, p: char -> bool)
    ensures All(a + b, p) <==> All(a, p) && All(b, p)
  {
    if All(a, p) && All(b, p) {
      forall i | 0 <= i < |a + b| ensures p((a + b)[i]) {
        if i >= |a| { assert (a + b)[i] == b[i - |a|]; }
      }
    }
    if All(a + b, p) {
      forall i | 0 <= i < |a| ensures p(a[i]) { assert a[i] == (a + b)[i]; }
      forall i | 0 <= i < |b| ensures p(b[i]) { assert b[i] == (a + b)[|a| + i]; }
    }
  }

  /** `s` without the characters of `p` at either end. */
  function Strip(s: string, p: char -> bool): (r: string)
  {
    var lo := LeadingRun(s, p);
    s[lo..|s| - TrailingRun(s[lo..], p)]
  }

  /** Stripping removes class characters at the ends only: `Strip(s, p)` is the
      infix `s[lo..hi]` with nothing but class characters outside it. */
  lemma StripIsInfix(s: string, p: char -> bool) returns (lo: nat, hi: nat)
    ensures lo <= hi <= |s| && Strip(s, p) == s[lo..hi]
    ensures All(s[..lo], p) && All(s[hi..], p)
    ensures hi > lo ==> !p(s[lo]) && !p(s[hi - 1])
  {
    lo := LeadingRun(s, p);
    var t := s[lo..];
    var k := TrailingRun(t, p);
    hi := |s| - k;
    if hi > lo {
      assert s[hi - 1] == t[|t| - k - 1];
    }
    assert All(s[..lo], p) by {
      assert forall i :: 0 <= i < lo ==> s[..lo][i] == s[i];
    }
    assert All(s[hi..], p) by {
      assert forall i :: 0 <= i < k ==> s[hi..][i] == t[|t| - k + i];
    }
  }

  /** A stripped text starts and ends outside the class, is empty exactly when
      the whole text is in the class, and leaves such an already stripped text
      alone. */
  lemma StripFacts(s: string, p: char -> bool)
    ensures var r := Strip(s, p); r == [] || (!p(r[0]) && !p(r[|r| - 1]))
    ensures Strip(s, p) == [] <==> All(s, p)
    ensures (s == [] || (!p(s[0]) && !p(s[|s| - 1]))) ==> Strip(s, p) == s
  {
    var lo, hi := StripIsInfix(s, p);
    StripEmpty(s, p, lo, hi);
    if s != [] && !p(s[0]) && !p(s[|s| - 1]) {
      assert lo == 0;
      assert hi == |s|;
    }
  }

  /** With only class characters outside `s[lo..hi]` and a non-class character
      opening it, the infix is empty exactly when all of `s` is in the class. */
  lemma StripEmpty(s: string, p: char -> bool, lo: nat, hi: nat)
    requires lo <= hi <= |s|
    requires All(s[..lo], p) && All(s[hi..], p)
    requires hi > lo ==> !p(s[lo])
    ensures lo == hi <==> All(s, p)
  {
    if lo == hi {
      assert s == s[..lo] + s[hi..];
      AllAppend(s[..lo], s[hi..], p);
    }
  }

  /** The stripped text is pinned down by its ends: an infix with only class
      characters outside it that starts and ends outside the class is it. */
  lemma StripUnique(s: string, p: char -> bool, lo: nat, hi: nat)
    requires lo < hi <= |s|
    requires All(s[..lo], p) && All(s[hi..], p)
    requires !p(s[lo]) && !p(s[hi - 1])
    ensures Strip(s, p) == s[lo..hi]
  {
    LeadingRunIs(s, p, lo);
    var t, k := s[lo..], |s| - hi;
    assert t[|t| - k..] == s[hi..] && t[|t| - k - 1] == s[hi - 1];
    TrailingRunIs(t, p, k);
  }

  lemma LeadingRunIs(s: string, p: char -> bool, k: nat)
    requires k < |s| && All(s[..k], p) && !p(s[k])
    ensures LeadingRun(s, p) == k
  {
    assert forall i :: 0 <= i < k ==> s[..k][i] == s[i];
  }

  lemma TrailingRunIs(t: string, p: char -> bool, k: nat)
    requires k < |t| && All(t[|t| - k..], p) && !p(t[|t| - k - 1])
    ensures TrailingRun(t, p) == k
  {
    assert forall i :: |t| - k <= i < |t| ==> t[|t| - k..][i - (|t| - k)] == t[i];
  }

  /** Stripping works on both sides of a middle part whose neighbours are
      outside the class: the middle is kept whole. */
  lemma StripAround(x: string, m: string, y: string, p: char -> bool)
    requires x != [] && !p(x[|x| - 1])
    requires y != [] && !p(y[0])
    ensures Strip(x + m + y, p) == Strip(x, p) + m + Strip(y, p)
  {
    var lo := StripFront(x, p);
    var hy := StripBack(y, p);
    var s := x + m + y;
    var hi := |x| + |m| + hy;
    assert s[..lo] == x[..lo];
    assert s[hi..] == y[hy..];
    assert s[lo] == x[lo] && s[hi - 1] == y[hy - 1];
    assert s[lo..hi] == x[lo..] + m + y[..hy];
    StripUnique(s, p, lo, hi);
  }

  /** A text ending outside the class is stripped at its front only. */
  lemma StripFront(x: string, p: char -> bool) returns (lo: nat)
    requires x != [] && !p(x[|x| - 1])
    ensures lo < |x| && Strip(x, p) == x[lo..]
    ensures All(x[..lo], p) && !p(x[lo])
  {
    var hx;
    lo, hx := StripIsInfix(x, p);
    assert forall i :: 0 <= i < lo ==> x[..lo][i] == x[i];
  }

  /** A text starting outside the class is stripped at its back only. */
  lemma StripBack(y: string, p: char -> bool) returns (hi: nat)
    requires y != [] && !p(y[0])
    ensures 0 < hi <= |y| && Strip(y, p) == y[..hi]
    ensures All(y[hi..], p) && !p(y[hi - 1])
  {
    var ly;
    ly, hi := StripIsInfix(y, p);
    assert forall i :: hi <= i < |y| ==> y[hi..][i - hi] == y[i];
  }

  /** A text is its prefix, infix and suffix put back together. */
  lemma Pieces(s: string, lo: nat, hi: nat)
    requires lo <= hi <= |s|
    ensures s == s[..lo] + (s[lo..hi] + s[hi..])
  {
    assert s[lo..] == s[lo..hi] + s[hi..];
    assert s == s[..lo] + s[lo..];
  }

  /** Stripping keeps every character outside the class, in order. */
  lemma StripKeeps(s: string, p: char -> bool)
    ensures Without(Strip(s, p), p) == Without(s, p)
  {
    var lo, hi := StripIsInfix(s, p);
    Pieces(s, lo, hi);
    WithoutMiddle(s[..lo], s[lo..hi], s[hi..], p);
  }

  /** Class characters around a text do not count. */
  lemma WithoutMiddle(a: string, m: string, b: string, p: char -> bool)
    requires All(a, p) && All(b, p)
    ensures Without(a + (m + b), p) == Without(m, p)
  {
    WithoutAppend(a, m + b, p);
    WithoutAppend(m, b, p);
  }

  /** JavaScript's `String.prototype.trim`. */
  function Trim(s: string): (r: string)
    ensures IsTrimmed(r)
    ensures r == [] <==> All(s, IsSpace)
    ensures IsTrimmed(s) ==> r == s
  {
    StripFacts(s, IsSpace);
    Strip(s, IsSpace)
  }

  /** Trimming keeps every character that is not white space, in order. */
  lemma TrimKeeps(s: string)
    ensures Without(Trim(s), IsSpace) == Without(s, IsSpace)
  {
    StripKeeps(s, IsSpace);
  }

  /** Trimming yields only characters of its input, and keeps white space
      apart when it was apart in the input. */
  lemma TrimInfix(s: string)
    ensures forall c :: c in Trim(s) ==> c in s
    ensures Isolated(s, IsSpace) ==> Isolated(Trim(s), IsSpace)
  {
    var lo, hi := StripIsInfix(s, IsSpace);
    InfixIsolated(s, lo, hi, IsSpace);
  }

  lemma InfixIsolated(s: string, lo: nat, hi: nat, p: char -> bool)
    requires lo <= hi <= |s|
    ensures Isolated(s, p) ==> Isolated(s[lo..hi], p)
  {
    if Isolated(s, p) {
      var r := s[lo..hi];
      forall i | 0 < i < |r| ensures !(p(r[i - 1]) && p(r[i])) {
        assert r[i - 1] == s[lo + i - 1] && r[i] == s[lo + i];
      }
    }
  }
  /** Two texts without neighbouring class characters can be put side by side
      when the seam does not create a pair. */
  lemma IsolatedConcat(a: string, b: string, p: char -> bool)
    requires Isolated(a, p) && Isolated(b, p)
    requires a == [] || b == [] || !p(a[|a| - 1]) || !p(b[0])
    ensures Isolated(a + b, p)
  {
    var s := a + b;
    forall i | 0 < i < |s| ensures !(p(s[i - 1]) && p(s[i])) {
      if i > |a| {
        assert s[i - 1] == b[i - 1 - |a|] && s[i] == b[i - |a|];
      } else if i < |a| {
        assert s[i - 1] == a[i - 1] && s[i] == a[i];
      }
    }
  }


  // ---------------------------------------------------------------------------
  // Splitting and joining on a literal separator

  /** `sep` occurs in `s` starting at index `k`. */
  predicate IsAt(s: string, sep: string, k: nat) {
    k + |sep| <= |s| && s[k..k + |sep|] == sep
  }

  predicate Contains(s: string, sep: string) {
    exists k: nat | k <= |s| :: IsAt(s, sep, k)
  }

  lemma ContainsChar(s: string, c: char)
    ensures Contains(s, [c]) <==> c in s
  {
    if c in s {
      var k :| 0 <= k < |s| && s[k] == c;
      assert IsAt(s, [c], k);
    }
    if Contains(s, [c]) {
      var k: nat :| k <= |s| && IsAt(s, [c], k);
      assert s[k..k + 1][0] == s[k];
    }
  }

  /** The leftmost occurrence of `sep` in `s` at or after `from`. */
  function Find(s: string, sep: string, from: nat): (r: Option<nat>)
    requires from <= |s|
    ensures r.Some? ==> from <= r.value && IsAt(s, sep, r.value)
    ensures r.Some? ==> forall k: nat :: from <= k < r.value ==> !IsAt(s, sep, k)
    ensures r.None? ==> forall k: nat :: from <= k ==> !IsAt(s, sep, k)
    decreases |s| - from
  {
    if from + |sep| > |s| then None
    else if s[from..from + |sep|] == sep then Some(from)
    else if from == |s| then None
    else Find(s, sep, from + 1)
  }

  /** `parts.join(sep)` */
  function Join(parts: seq<string>, sep: string): string
  {
    if |parts| == 0 then []
    else if |parts| == 1 then parts[0]
    else parts[0] + sep + Join(parts[1..], sep)
  }

  /** Cutting `head + sep + rest` after `head` cuts at the leftmost
      occurrence of `sep`: none starts inside `head`. */
  predicate CutsLeftmost(head: string, sep: string, rest: string) {
    forall k: nat :: k < |head| ==> !IsAt(head + sep + rest, sep, k)
  }

  /** `s.split(sep)` for a non-empty literal separator: the pieces between the
      successive leftmost occurrences of `sep`. */
  function Split(s: string, sep: string): (parts: seq<string>)
    requires |sep| > 0
    ensures |parts| >= 1
    ensures Join(parts, sep) == s
    ensures forall i :: 0 <= i < |parts| ==> !Contains(parts[i], sep)
    ensures forall i :: 0 <= i < |parts| - 1 ==> CutsLeftmost(parts[i], sep, Join(parts[i + 1..], sep))
    decreases |s|
  {
    match Find(s, sep, 0)
    case None => [s]
    case Some(k) =>
      var rest := Split(s[k + |sep|..], sep);
      var parts := [s[..k]] + rest;
      assert parts[1..] == rest;
      assert s == s[..k] + sep + s[k + |sep|..] by {
        assert s[k..k + |sep|] == sep;
      }
      forall j: nat | IsAt(s[..k], sep, j) ensures false {
        assert s[..k][j..j + |sep|] == s[j..j + |sep|];
        assert IsAt(s, sep, j);
      }
      forall i | 1 <= i < |parts| - 1
        ensures CutsLeftmost(parts[i], sep, Join(parts[i + 1..], sep))
      {
        assert parts[i] == rest[i - 1] && parts[i + 1..] == rest[i..];
      }
      parts
  }

  lemma {:induction false} JoinAppend(a: seq<string>, b: seq<string>, sep: string)
    requires |a| > 0 && |b| > 0
    ensures Join(a + b, sep) == Join(a, sep) + sep + Join(b, sep)
    decreases |a|
  {
    if |a| == 1 {
      assert (a + b)[1..] == b;
    } else {
      assert (a + b)[1..] == a[1..] + b;
      JoinAppend(a[1..], b, sep);
    }
  }

  /** The pieces are determined by the text: pieces free of `sep`, each cut at
      the leftmost occurrence, are exactly what splitting their join gives. */
  lemma {:induction false} SplitUnique(parts: seq<string>, sep: string)
    requires |sep| > 0 && |parts| > 0
    requires forall i :: 0 <= i < |parts| ==> !Contains(parts[i], sep)
    requires forall i :: 0 <= i < |parts| - 1 ==> CutsLeftmost(parts[i], sep, Join(parts[i + 1..], sep))
    ensures Split(Join(parts, sep), sep) == parts
    decreases |parts|
  {
    var s := Join(parts, sep);
    if |parts| > 1 {
      var h, tail := |parts[0]|, parts[1..];
      assert s == parts[0] + sep + Join(tail, sep);
      assert IsAt(s, sep, h) by {
        assert s[h..h + |sep|] == sep;
      }
      assert CutsLeftmost(parts[0], sep, Join(tail, sep));
      var k :| Find(s, sep, 0) == Some(k);
      assert k == h;
      assert s[k + |sep|..] == Join(tail, sep);
      forall i | 0 <= i < |tail| - 1
        ensures CutsLeftmost(tail[i], sep, Join(tail[i + 1..], sep))
      {
        assert tail[i] == parts[i + 1] && tail[i + 1..] == parts[i + 2..];
      }
      SplitUnique(tail, sep);
      assert parts == [parts[0]] + tail;
    }
  }

  /** No piece contains the character `c`. */
  predicate FreeOf(parts: seq<string>, c: char) {
    forall i :: 0 <= i < |parts| ==> c !in parts[i]
  }

  /** In a join of `c`-free pieces, the first `c` ends the first piece. */
  lemma JoinFirstPiece(a: seq<string>, c: char)
    requires |a| > 0 && FreeOf(a, c)
    ensures |a| == 1 ==> Join(a, [c]) == a[0] && c !in a[0]
    ensures |a| > 1 ==> var s := Join(a, [c]);
      && |a[0]| < |s| && s[|a[0]|] == c
      && s[..|a[0]|] == a[0] && s[|a[0]| + 1..] == Join(a[1..], [c])
      && forall k :: 0 <= k < |a[0]| ==> s[k] != c
  {
    if |a| > 1 {
      var s := Join(a, [c]);
      assert s == a[0] + [c] + Join(a[1..], [c]);
      forall k | 0 <= k < |a[0]| ensures s[k] != c {
        assert s[k] == a[0][k];
      }
    }
  }

  /** With a one-character separator, the pieces are determined by the joined
      text: two lists of `c`-free pieces that join to the same text are equal. */
  lemma {:induction false} JoinInjective(a: seq<string>, b: seq<string>, c: char)
    requires |a| > 0 && |b| > 0
    requires FreeOf(a, c) && FreeOf(b, c)
    requires Join(a, [c]) == Join(b, [c])
    ensures a == b
    decreases |a|
  {
    JoinFirstPiece(a, c);
    JoinFirstPiece(b, c);
    var s := Join(a, [c]);
    assert |a| == 1 <==> c !in s;
    assert |b| == 1 <==> c !in s;
    if |a| > 1 {
      assert |a[0]| == |b[0]|;
      JoinInjective(a[1..], b[1..], c);
      assert a == [a[0]] + a[1..] && b == [b[0]] + b[1..];
    }
  }

  lemma SplitFreeOf(s: string, c: char)
    ensures FreeOf(Split(s, [c]), c)
  {
    var parts := Split(s, [c]);
    forall i | 0 <= i < |parts| ensures c !in parts[i] {
      ContainsChar(parts[i], c);
    }
  }

  /** Splitting on one character undoes joining on it. */
  lemma SplitJoin(parts: seq<string>, c: char)
    requires |parts| > 0 && FreeOf(parts, c)
    ensures Split(Join(parts, [c]), [c]) == parts
  {
    var s := Join(parts, [c]);
    SplitFreeOf(s, c);
    JoinInjective(Split(s, [c]), parts, c);
  }

  /** Splitting on one character distributes over an occurrence of it. */
  lemma SplitAround(a: string, b: string, c: char)
    ensures Split(a + [c] + b, [c]) == Split(a, [c]) + Split(b, [c])
  {
    var pa, pb := Split(a, [c]), Split(b, [c]);
    JoinAppend(pa, pb, [c]);
    SplitFreeOf(a, c);
    SplitFreeOf(b, c);
    assert FreeOf(pa + pb, c) by {
      forall i | 0 <= i < |pa + pb| ensures c !in (pa + pb)[i] {
        if i >= |pa| { assert (pa + pb)[i] == pb[i - |pa|]; }
      }
    }
    SplitJoin(pa + pb, c);
  }

  /** A text without `c` splits into itself alone. */
  lemma SplitWithout(s: string, c: char)
    requires c !in s
    ensures Split(s, [c]) == [s]
  {
    SplitJoin([s], c);
  }

  // ---------------------------------------------------------------------------
  // Collapsing runs of a character class

  /** Every maximal run of characters in `p` replaced by the single character
      `rep`, the effect of a global regular-expression replace of `p+`: a class
      character followed by another one is dropped, and the last of a run
      becomes `rep`. */
  function CollapseRuns(s: string, p: char -> bool, rep: char): (r: string)
    ensures |r| <= |s|
    ensures |s| > 0 ==> |r| > 0 && r[0] == (if p(s[0]) then rep else s[0])
    ensures Isolated(r, p)
    decreases |s|
  {
    if s == [] then []
    else if p(s[0]) && |s| > 1 && p(s[1]) then CollapseRuns(s[1..], p, rep)
    else [if p(s[0]) then rep else s[0]] + CollapseRuns(s[1..], p, rep)
  }

  /** What collapsing produces: class characters only as `rep`, other
      characters only from the input. */
  lemma {:induction false} CollapseRunsChars(s: string, p: char -> bool, rep: char)
    ensures forall c :: c in CollapseRuns(s, p, rep) ==> c == rep || (c in s && !p(c))
    decreases |s|
  {
    if s != [] {
      CollapseRunsChars(s[1..], p, rep);
      assert forall c :: c in s[1..] ==> c in s;
    }
  }

  /** A trailing run of class characters is still visible, as `rep`, at the
      end of the collapsed text. */
  lemma {:induction false} CollapseRunsLast(s: string, p: char -> bool, rep: char)
    requires |s| > 0 && p(s[|s| - 1])
    ensures var r := CollapseRuns(s, p, rep); r[|r| - 1] == rep
    decreases |s|
  {
    if |s| > 1 {
      assert s[1..][|s| - 2] == s[|s| - 1];
      CollapseRunsLast(s[1..], p, rep);
    }
  }

  /** Collapsing keeps every character outside the class, in order. */
  lemma {:induction false} CollapseRunsKeeps(s: string, p: char -> bool, rep: char)
    requires p(rep)
    ensures Without(CollapseRuns(s, p, rep), p) == Without(s, p)
    decreases |s|
  {
    if s != [] {
      CollapseRunsKeeps(s[1..], p, rep);
      if !(p(s[0]) && |s| > 1 && p(s[1])) {
        var h := if p(s[0]) then rep else s[0];
        WithoutAppend([h], CollapseRuns(s[1..], p, rep), p);
      }
    }
  }

  /** Collapsing leaves a text alone exactly when it has nothing to collapse. */
  lemma {:induction false} CollapseRunsFixed(s: string, p: char -> bool, rep: char)
    requires Isolated(s, p)
    requires forall i :: 0 <= i < |s| && p(s[i]) ==> s[i] == rep
    ensures CollapseRuns(s, p, rep) == s
    decreases |s|
  {
    if s != [] {
      assert forall i :: 0 < i < |s[1..]| ==> s[1..][i - 1] == s[i] && s[1..][i] == s[i + 1];
      CollapseRunsFixed(s[1..], p, rep);
      assert s == [s[0]] + s[1..];
    }
  }

  lemma CollapseRunsIdempotent(s: string, p: char -> bool, rep: char)
    ensures CollapseRuns(CollapseRuns(s, p, rep), p, rep) == CollapseRuns(s, p, rep)
  {
    var r := CollapseRuns(s, p, rep);
    CollapseRunsChars(s, p, rep);
    assert forall i :: 0 <= i < |r| ==> r[i] in r;
    CollapseRunsFixed(r, p, rep);
  }

  /** A tail without class characters passes through collapsing untouched. */
  lemma {:induction false} CollapseRunsAppend(x: string, y: string, p: char -> bool, rep: char)
    requires forall i :: 0 <= i < |y| ==> !p(y[i])
    ensures CollapseRuns(x + y, p, rep) == CollapseRuns(x, p, rep) + y
    decreases |y|
  {
    if y == [] {
      assert x + y == x;
    } else {
      var n := |y| - 1;
      assert x + y == (x + y[..n]) + [y[n]];
      CollapseRunsAppend(x, y[..n], p, rep);
      CollapseRunsSnoc(x + y[..n], y[n], p, rep);
      Reassociate(CollapseRuns(x, p, rep), y[..n], [y[n]]);
      assert y == y[..n] + [y[n]];
    }
  }

  /** A character outside the class at the end passes through collapsing. */
  lemma {:induction false} CollapseRunsSnoc(x: string, c: char, p: char -> bool, rep: char)
    requires !p(c)
    ensures CollapseRuns(x + [c], p, rep) == CollapseRuns(x, p, rep) + [c]
    decreases |x|
  {
    if x == [] {
      assert x + [c] == [c];
      assert CollapseRuns([c][1..], p, rep) == [];
    } else {
      assert (x + [c])[0] == x[0] && (x + [c])[1..] == x[1..] + [c];
      CollapseRunsSnoc(x[1..], c, p, rep);
      if |x| == 1 {
        assert x[1..] == [];
      } else if !(p(x[0]) && p(x[1])) {
        Reassociate([if p(x[0]) then rep else x[0]], CollapseRuns(x[1..], p, rep), [c]);
      }
    }
  }

  /** A character outside the class cuts collapsing in two: each side is
      collapsed on its own. */
  lemma {:induction false} CollapseRunsCut(x: string, c: char, y: string, p: char -> bool, rep: char)
    requires !p(c)
    ensures CollapseRuns(x + [c] + y, p, rep) == CollapseRuns(x, p, rep) + [c] + CollapseRuns(y, p, rep)
    decreases |x|
  {
    if x == [] {
      assert x + [c] + y == [c] + y;
      CollapseRunsCons(c, y, p, rep);
    } else {
      var a, rest := x[0], x[1..];
      var z := rest + [c] + y;
      assert x + [c] + y == [a] + z && x == [a] + rest;
      assert z[0] == if rest == [] then c else rest[0];
      CollapseRunsCut(rest, c, y, p, rep);
      CollapseRunsCons(a, z, p, rep);
      CollapseRunsCons(a, rest, p, rep);
      if !(p(a) && rest != [] && p(rest[0])) {
        var h := if p(a) then rep else a;
        Reassociate([h], CollapseRuns(rest, p, rep) + [c], CollapseRuns(y, p, rep));
        Reassociate([h], CollapseRuns(rest, p, rep), [c]);
      }
    }
  }

  /** One step of collapsing, at the front. */
  lemma CollapseRunsCons(a: char, z: string, p: char -> bool, rep: char)
    ensures CollapseRuns([a] + z, p, rep) ==
      if p(a) && z != [] && p(z[0]) then CollapseRuns(z, p, rep)
      else [if p(a) then rep else a] + CollapseRuns(z, p, rep)
  {
    assert ([a] + z)[1..] == z;
  }

  /** A non-empty run of class characters collapses to one `rep`. */
  lemma {:induction false} CollapseRunsBlank(s: string, p: char -> bool, rep: char)
    requires s != [] && All(s, p)
    ensures CollapseRuns(s, p, rep) == [rep]
    decreases |s|
  {
    if |s| > 1 {
      assert forall i :: 0 <= i < |s| - 1 ==> s[1..][i] == s[i + 1];
      CollapseRunsBlank(s[1..], p, rep);
    }
  }

  /** A maximal run of class characters between two other characters, or at
      either end, becomes exactly one `rep`, and the text on each side is
      collapsed on its own. */
  lemma CollapseRunsAround(x: string, w: string, y: string, p: char -> bool, rep: char)
    requires w != [] && All(w, p)
    requires x == [] || !p(x[|x| - 1])
    requires y == [] || !p(y[0])
    ensures CollapseRuns(x + w + y, p, rep) == CollapseRuns(x, p, rep) + [rep] + CollapseRuns(y, p, rep)
  {
    CollapseRunsLead(w, y, p, rep);
    Reassociate(x, w, y);
    CollapseRunsAfter(x, w + y, p, rep);
    Reassociate(CollapseRuns(x, p, rep), [rep], CollapseRuns(y, p, rep));
  }

  /** A text ending outside the class is collapsed apart from what follows. */
  lemma CollapseRunsAfter(x: string, z: string, p: char -> bool, rep: char)
    requires x == [] || !p(x[|x| - 1])
    ensures CollapseRuns(x + z, p, rep) == CollapseRuns(x, p, rep) + CollapseRuns(z, p, rep)
  {
    if x == [] {
      assert x + z == z;
    } else {
      var n := |x| - 1;
      var front, c := x[..n], x[n];
      assert x == front + [c];
      CollapseRunsCut(front, c, z, p, rep);
      CollapseRunsSnoc(front, c, p, rep);
    }
  }

  /** A last character outside the class stays last. */
  lemma CollapseRunsEnd(s: string, p: char -> bool, rep: char)
    requires s != [] && !p(s[|s| - 1])
    ensures var r := CollapseRuns(s, p, rep); r != [] && r[|r| - 1] == s[|s| - 1]
  {
    var n := |s| - 1;
    assert s == s[..n] + [s[n]];
    CollapseRunsSnoc(s[..n], s[n], p, rep);
  }

  /** A leading run of class characters becomes one `rep`. */
  lemma CollapseRunsLead(w: string, y: string, p: char -> bool, rep: char)
    requires w != [] && All(w, p)
    requires y == [] || !p(y[0])
    ensures CollapseRuns(w + y, p, rep) == [rep] + CollapseRuns(y, p, rep)
  {
    CollapseRunsBlank(w, p, rep);
    if y == [] {
      assert w + y == w;
    } else {
      assert w + y == w + [y[0]] + y[1..] && y == [] + [y[0]] + y[1..];
      CollapseRunsCut(w, y[0], y[1..], p, rep);
      CollapseRunsCut([], y[0], y[1..], p, rep);
    }
  }

  /** Concatenation regroups freely. */
  lemma Reassociate(a: string, b: string, c: string)
    ensures a + (b + c) == (a + b) + c
  {
  }
}
