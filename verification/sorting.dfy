/**
  Ordering of the book list by recency. The exporter sorts with
  `Array.prototype.sort` and the comparator `b.latestPosition - a.latestPosition`;
  that sort is stable, so the list ends up most recent first with ties left in
  their original order. The model sorts by stable insertion and proves that no
  other order has both properties.
 */
module RecencySort {
  import opened Model

  /** Most recent first. */
  predicate SortedByRecency(s: seq<Book>) {
    forall i, j :: 0 <= i < j < |s| ==> s[i].latestPosition >= s[j].latestPosition
  }

  /** The books of `s` whose `latestPosition` is `k`, in their order in `s`. */
  function WithPosition(s: seq<Book>, k: int): (r: seq<Book>)
    ensures |r| <= |s|
  {
    if s == [] then []
    else (if s[0].latestPosition == k then [s[0]] else []) + WithPosition(s[1..], k)
  }

  lemma {:induction false} WithPositionMembers(s: seq<Book>, k: int)
    ensures forall b :: b in WithPosition(s, k) ==> b in s && b.latestPosition == k
  {
    if s != [] {
      WithPositionMembers(s[1..], k);
    }
  }

  lemma {:induction false} WithPositionAppend(a: seq<Book>, b: seq<Book>, k: int)
    ensures WithPosition(a + b, k) == WithPosition(a, k) + WithPosition(b, k)
  {
    if a == [] {
      assert a + b == b;
    } else {
      var h := if a[0].latestPosition == k then [a[0]] else [];
      assert (a + b)[0] == a[0] && (a + b)[1..] == a[1..] + b;
      assert WithPosition(a + b, k) == h + WithPosition(a[1..] + b, k);
      WithPositionAppend(a[1..], b, k);
      assert WithPosition(a, k) == h + WithPosition(a[1..], k);
    }
  }

  /** `b` placed in front of the first book that is no more recent than it. */
  function Insert(b: Book, s: seq<Book>): (r: seq<Book>)
    ensures multiset(r) == multiset([b] + s)
  {
    if s == [] || b.latestPosition >= s[0].latestPosition then [b] + s
    else
      assert s == [s[0]] + s[1..];
      [s[0]] + Insert(b, s[1..])
  }

  lemma {:induction false} InsertSorted(b: Book, s: seq<Book>)
    requires SortedByRecency(s)
    ensures SortedByRecency(Insert(b, s))
  {
    if s != [] && b.latestPosition < s[0].latestPosition {
      var t := Insert(b, s[1..]);
      InsertSorted(b, s[1..]);
      assert forall x :: x in t ==> x.latestPosition <= s[0].latestPosition by {
        forall x | x in t ensures x.latestPosition <= s[0].latestPosition {
          assert x in multiset([b] + s[1..]);
          assert x in [b] + s[1..];
        }
      }
      SortedCons(s[0], t);
    }
  }

  /** A book no less recent than every book of a sorted list can go in front. */
  lemma SortedCons(x: Book, t: seq<Book>)
    requires SortedByRecency(t)
    requires forall y :: y in t ==> y.latestPosition <= x.latestPosition
    ensures SortedByRecency([x] + t)
  {
    var s := [x] + t;
    forall i, j | 0 <= i < j < |s| ensures s[i].latestPosition >= s[j].latestPosition {
      assert s[j] == t[j - 1] && t[j - 1] in t;
      if i > 0 {
        assert s[i] == t[i - 1];
      }
    }
  }

  /** Inserting keeps, for every position value, the relative order of the books
      carrying it, with `b` ahead of the others. */
  lemma {:induction false} InsertStable(b: Book, s: seq<Book>, k: int)
    ensures WithPosition(Insert(b, s), k) == WithPosition([b] + s, k)
  {
    if s != [] && b.latestPosition < s[0].latestPosition {
      var t := Insert(b, s[1..]);
      var hs, hb := WithPosition([s[0]], k), WithPosition([b], k);
      var rest := WithPosition(s[1..], k);
      assert hs + hb == hb + hs by {
        assert hs == [] || hb == [];
      }
      assert WithPosition(Insert(b, s), k) == hs + WithPosition(t, k) by {
        assert Insert(b, s) == [s[0]] + t;
        WithPositionAppend([s[0]], t, k);
      }
      assert WithPosition(t, k) == hb + rest by {
        InsertStable(b, s[1..], k);
        WithPositionAppend([b], s[1..], k);
      }
      assert WithPosition([b] + s, k) == hb + (hs + rest) by {
        WithPositionAppend([b], s, k);
        WithPositionAppend([s[0]], s[1..], k);
        assert s == [s[0]] + s[1..];
      }
    }
  }

  /** The stable sort, most recent first. */
  function SortByRecency(s: seq<Book>): (r: seq<Book>)
    ensures multiset(r) == multiset(s)
    ensures SortedByRecency(r)
  {
    if s == [] then []
    else
      assert s == [s[0]] + s[1..];
      InsertSorted(s[0], SortByRecency(s[1..]));
      Insert(s[0], SortByRecency(s[1..]))
  }

  /** Stability: books that share a position value keep their relative order. */
  lemma {:induction false} SortStable(s: seq<Book>, k: int)
    ensures WithPosition(SortByRecency(s), k) == WithPosition(s, k)
  {
    if s != [] {
      var t := SortByRecency(s[1..]);
      InsertStable(s[0], t, k);
      SortStable(s[1..], k);
      WithPositionAppend([s[0]], t, k);
      WithPositionAppend([s[0]], s[1..], k);
      assert s == [s[0]] + s[1..];
    }
  }

  lemma HeadGroup(s: seq<Book>)
    requires s != []
    ensures WithPosition(s, s[0].latestPosition) != []
  {
    assert WithPosition(s, s[0].latestPosition)[0] == s[0];
  }

  /** In a sorted list no book is more recent than the first. */
  lemma SortedHead(s: seq<Book>)
    requires SortedByRecency(s) && s != []
    ensures forall k :: WithPosition(s, k) != [] ==> k <= s[0].latestPosition
  {
    forall k | WithPosition(s, k) != [] ensures k <= s[0].latestPosition {
      WithPositionMembers(s, k);
      var x := WithPosition(s, k)[0];
      assert x in s;
      var j :| 0 <= j < |s| && s[j] == x;
    }
  }

  lemma GroupsOfTails(a: seq<Book>, b: seq<Book>)
    requires a != [] && b != [] && a[0] == b[0]
    requires forall k :: WithPosition(a, k) == WithPosition(b, k)
    ensures forall k :: WithPosition(a[1..], k) == WithPosition(b[1..], k)
  {
    forall k ensures WithPosition(a[1..], k) == WithPosition(b[1..], k) {
      var h := if a[0].latestPosition == k then [a[0]] else [];
      assert WithPosition(a, k) == h + WithPosition(a[1..], k);
      assert WithPosition(b, k) == h + WithPosition(b[1..], k);
      assert WithPosition(a[1..], k) == (h + WithPosition(a[1..], k))[|h|..];
      assert WithPosition(b[1..], k) == (h + WithPosition(b[1..], k))[|h|..];
    }
  }

  /** A sorted list and its position groups determine each other: any stable
      most-recent-first sort of the same list, whatever the algorithm, gives
      the same sequence. */
  lemma {:induction false} StableSortUnique(a: seq<Book>, b: seq<Book>)
    requires SortedByRecency(a) && SortedByRecency(b)
    requires forall k :: WithPosition(a, k) == WithPosition(b, k)
    ensures a == b
    decreases |a|
  {
    if a == [] || b == [] {
      // the non-empty one would have a non-empty group the other lacks
      if a != [] {
        HeadGroup(a);
        assert false;
      }
      if b != [] {
        HeadGroup(b);
        assert false;
      }
    } else {
      var ka, kb := a[0].latestPosition, b[0].latestPosition;
      SortedHead(a);
      SortedHead(b);
      assert WithPosition(a, ka)[0] == a[0];
      assert WithPosition(b, kb)[0] == b[0];
      assert ka == kb;
      assert a[0] == b[0];
      GroupsOfTails(a, b);
      StableSortUnique(a[1..], b[1..]);
      assert a == [a[0]] + a[1..] && b == [b[0]] + b[1..];
    }
  }

  /** The sort is the only stable most-recent-first order of its input. */
  lemma SortIsTheStableSort(s: seq<Book>, r: seq<Book>)
    requires SortedByRecency(r)
    requires forall k :: WithPosition(r, k) == WithPosition(s, k)
    ensures r == SortByRecency(s)
  {
    forall k ensures WithPosition(r, k) == WithPosition(SortByRecency(s), k) {
      SortStable(s, k);
    }
    StableSortUnique(r, SortByRecency(s));
  }

  lemma {:induction false} WithPositionHas(s: seq<Book>, x: Book)
    requires x in s
    ensures x in WithPosition(s, x.latestPosition)
  {
    if s[0] != x {
      WithPositionHas(s[1..], x);
    }
  }

  /** Two books of `s` with the same position keep their order in its group. */
  lemma {:induction false} GroupKeepsOrder(s: seq<Book>, i: nat, j: nat)
    requires i < j < |s| && s[i].latestPosition == s[j].latestPosition
    ensures exists a, b ::
              && 0 <= a < b < |WithPosition(s, s[i].latestPosition)|
              && WithPosition(s, s[i].latestPosition)[a] == s[i]
              && WithPosition(s, s[i].latestPosition)[b] == s[j]
  {
    var k := s[i].latestPosition;
    var h := if s[0].latestPosition == k then [s[0]] else [];
    var w, w' := WithPosition(s, k), WithPosition(s[1..], k);
    assert w == h + w';
    if i == 0 {
      assert s[j] == s[1..][j - 1];
      WithPositionHas(s[1..], s[j]);
      var b :| 0 <= b < |w'| && w'[b] == s[j];
      assert w[0] == s[0] && w[b + 1] == s[j];
    } else {
      assert s[i] == s[1..][i - 1] && s[j] == s[1..][j - 1];
      GroupKeepsOrder(s[1..], i - 1, j - 1);
      var a, b :| 0 <= a < b < |w'| && w'[a] == s[i] && w'[b] == s[j];
      assert w[a + |h|] == s[i] && w[b + |h|] == s[j];
    }
  }

  /** Conversely, the order within a group is an order of `s`. */
  lemma {:induction false} GroupOrderFromList(s: seq<Book>, k: int, a: nat, b: nat)
    requires a < b < |WithPosition(s, k)|
    ensures exists i, j ::
              && 0 <= i < j < |s|
              && s[i] == WithPosition(s, k)[a]
              && s[j] == WithPosition(s, k)[b]
  {
    var h := if s[0].latestPosition == k then [s[0]] else [];
    var w, w' := WithPosition(s, k), WithPosition(s[1..], k);
    assert w == h + w';
    if h != [] && a == 0 {
      assert w[b] == w'[b - 1] && w'[b - 1] in w';
      WithPositionMembers(s[1..], k);
      var j :| 0 <= j < |s[1..]| && s[1..][j] == w[b];
      assert s[0] == w[0] && s[j + 1] == w[b];
    } else {
      GroupOrderFromList(s[1..], k, a - |h|, b - |h|);
      var i, j :| 0 <= i < j < |s[1..]| && s[1..][i] == w'[a - |h|] && s[1..][j] == w'[b - |h|];
      assert s[i + 1] == w[a] && s[j + 1] == w[b];
    }
  }

  /** Stability stated index by index: two books of the sorted list with the
      same position appear in that order in the input too. */
  lemma SortKeepsTieOrder(s: seq<Book>, i: nat, j: nat)
    requires i < j < |SortByRecency(s)|
    requires SortByRecency(s)[i].latestPosition == SortByRecency(s)[j].latestPosition
    ensures exists i', j' :: 0 <= i' < j' < |s| && s[i'] == SortByRecency(s)[i] && s[j'] == SortByRecency(s)[j]
  {
    var r := SortByRecency(s);
    var k := r[i].latestPosition;
    GroupKeepsOrder(r, i, j);
    var a, b :| 0 <= a < b < |WithPosition(r, k)| && WithPosition(r, k)[a] == r[i] && WithPosition(r, k)[b] == r[j];
    SortStable(s, k);
    GroupOrderFromList(s, k, a, b);
  }

  /** Titles met in the order A, C, B with latest positions 5, 5 and 9 come
      out as B, A, C: the most recent first, and A still ahead of C. */
  lemma SortExample()
    ensures var a, b, c := Book("A", [], 5, false), Book("B", [], 9, false), Book("C", [], 5, false);
      SortByRecency([a, c, b]) == [b, a, c]
  {
    var a, b, c := Book("A", [], 5, false), Book("B", [], 9, false), Book("C", [], 5, false);
    assert [a, c, b][1..] == [c, b] && [c, b][1..] == [b];
    assert SortByRecency([b]) == [b];
    assert SortByRecency([c, b]) == Insert(c, [b]) == [b, c];
    assert Insert(a, [b, c]) == [b, a, c];
  }
}
