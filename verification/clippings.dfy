/**
  The "My Clippings.txt" parser (`parseClippings` in src/main.js).

  The file is split on the literal `==========`; chunk number `i` of the split is
  classified by `ParseEntry` and folded, in order, into a title-keyed map that
  remembers the order in which titles were first met; the map's books are then
  sorted most recent first.

  Besides the parser as written, this module gives an independent description of
  each resulting book (`BookFor`): its highlights are the quotes of the chunks
  that name its title, in file order, and its `latestPosition` is the index of
  the last such chunk. `BookMapAgrees` and `ParseClippingsAgrees` connect the two.
 */
module Clippings {
  import opened Text
  import opened Model
  import opened RecencySort

  /** The line Kindle writes between two clippings. */
  const Delimiter: string := "=========="

  /** What one chunk of the file amounts to once its lines are counted. */
  datatype Entry =
    | Skipped                                                   // fewer than two lines
    | TitleOnly(title: string)                                  // exactly two lines
    | Clipping(title: string, metadata: string, content: string) // three lines or more

  /** The lines of a trimmed chunk, as `split('\n')` returns them. */
  function Lines(chunk: string): seq<string>
  {
    Split(Trim(chunk), "\n")
  }

  /** One chunk, classified as `parseClippings` does it: the title is the trimmed
      first line, the metadata the trimmed second line, the content the remaining
      lines joined with newlines and trimmed. The source's `if (title)` guard is
      kept; the contract shows it never rejects, and `EntryLines` ties the
      extracted values to the chunk's text. */
  function ParseEntry(chunk: string): (e: Entry)
    ensures e.Skipped? <==> |Lines(chunk)| < 2
    ensures e.TitleOnly? <==> |Lines(chunk)| == 2
    ensures !e.Skipped? ==> e.title != [] && IsTrimmed(e.title)
    ensures e.Clipping? ==> IsTrimmed(e.metadata)
    ensures e.Clipping? ==> e.content != [] && IsTrimmed(e.content)
  {
    var lines := Lines(chunk);
    LinesOfTrimmed(Trim(chunk));
    if |lines| < 2 then Skipped
    else
      var title := Trim(lines[0]);
      if title == [] then Skipped
      else if |lines| < 3 then TitleOnly(title)
      else Clipping(title, Trim(lines[1]), Trim(Join(lines[2..], "\n")))
  }

  /** What `ParseEntry` takes from the chunk's text: the trimmed chunk is a
      first line, a second line and the rest, separated by line breaks; the
      title is the first line trimmed, the metadata the second line trimmed and
      the content the rest trimmed. A chunk is skipped exactly when its trimmed
      text holds no line break. */
  lemma EntryLines(chunk: string) returns (l0: string, l1: string, rest: string)
    ensures '\n' !in l0 && '\n' !in l1
    ensures ParseEntry(chunk).Skipped? <==> '\n' !in Trim(chunk)
    ensures ParseEntry(chunk).TitleOnly? ==>
      && Trim(chunk) == l0 + "\n" + l1
      && ParseEntry(chunk).title == Trim(l0)
    ensures ParseEntry(chunk).Clipping? ==>
      && Trim(chunk) == l0 + "\n" + l1 + "\n" + rest
      && ParseEntry(chunk).title == Trim(l0)
      && ParseEntry(chunk).metadata == Trim(l1)
      && ParseEntry(chunk).content == Trim(rest)
    ensures !ParseEntry(chunk).Skipped? ==> FirstLine(Trim(chunk)) == l0
  {
    var t, lines := Trim(chunk), Lines(chunk);
    l0, l1, rest := LinePieces(t);
    LineBreaks(t);
  }

  /** The first two lines of a text and the rest, as `split('\n')` cuts them. */
  lemma LinePieces(t: string) returns (l0: string, l1: string, rest: string)
    ensures var lines := Split(t, "\n");
      && '\n' !in l0 && '\n' !in l1 && l0 == lines[0]
      && (|lines| >= 2 ==> l1 == lines[1] && FirstLine(t) == l0)
      && (|lines| == 2 ==> t == l0 + "\n" + l1)
      && (|lines| >= 3 ==> t == l0 + "\n" + l1 + "\n" + rest && rest == Join(lines[2..], "\n"))
  {
    var lines := Split(t, "\n");
    l0 := lines[0];
    l1 := if |lines| >= 2 then lines[1] else [];
    rest := if |lines| >= 3 then Join(lines[2..], "\n") else [];
    ContainsChar(l0, '\n');
    ContainsChar(l1, '\n');
    if |lines| >= 2 {
      var tail := Join(lines[1..], "\n");
      assert t == (l0 + "\n") + tail;
      Reassociate(l0, "\n", tail);
      FirstLineOf(l0, tail);
    }
    if |lines| >= 3 {
      var head, tail := l0 + "\n", Join(lines[1..], "\n");
      assert t == head + tail;
      assert lines[1..][1..] == lines[2..];
      assert tail == (l1 + "\n") + rest;
      Reassociate(head, l1 + "\n", rest);
      Reassociate(head, l1, "\n");
    }
  }

  /** A text splits into two lines or more exactly when it holds a break. */
  lemma LineBreaks(t: string)
    ensures |Split(t, "\n")| >= 2 <==> '\n' in t
  {
    var lines := Split(t, "\n");
    ContainsChar(lines[0], '\n');
    if |lines| == 1 {
      ContainsChar(t, '\n');
    } else {
      assert t == lines[0] + "\n" + Join(lines[1..], "\n");
      assert t[|lines[0]|] == '\n';
    }
  }

  /** The text before the first line break, or all of it when there is none. */
  function FirstLine(s: string): (l: string)
    ensures '\n' !in l && |l| <= |s| && s[..|l|] == l
    ensures |l| < |s| ==> s[|l|] == '\n'
  {
    if s == [] || s[0] == '\n' then [] else [s[0]] + FirstLine(s[1..])
  }

  /** A first line followed by a break is what `FirstLine` finds. */
  lemma FirstLineOf(l0: string, rest: string)
    requires '\n' !in l0
    ensures FirstLine(l0 + ("\n" + rest)) == l0
  {
    var s := l0 + ("\n" + rest);
    assert s[|l0|] == '\n';
    assert s[..|l0|] == l0;
  }

  /** A trimmed text of two lines or more starts its first line with, and ends
      its third-and-later lines with, something other than white space. */
  lemma LinesOfTrimmed(t: string)
    requires IsTrimmed(t)
    ensures |Split(t, "\n")| >= 2 ==> Trim(Split(t, "\n")[0]) != []
    ensures |Split(t, "\n")| >= 3 ==> Trim(Join(Split(t, "\n")[2..], "\n")) != []
  {
    var lines := Split(t, "\n");
    if |lines| >= 2 {
      var tail := Join(lines[1..], "\n");
      assert t == lines[0] + ("\n" + tail);
      NotBlankBefore(lines[0], tail);
      if |lines| >= 3 {
        var rest := Join(lines[2..], "\n");
        assert tail == lines[1] + "\n" + rest by {
          assert lines[1..][1..] == lines[2..];
        }
        assert t == (lines[0] + "\n" + lines[1]) + ("\n" + rest);
        NotBlankAfter(lines[0] + "\n" + lines[1], rest);
      }
    }
  }

  /** In a trimmed text, what precedes a line break is not blank. */
  lemma NotBlankBefore(a: string, b: string)
    requires IsTrimmed(a + ("\n" + b))
    ensures Trim(a) != []
  {
    var t := a + ("\n" + b);
    assert t[0] == (a + "\n")[0];
    assert a[0] == t[0];
  }

  /** In a trimmed text, what follows a line break is not blank. */
  lemma NotBlankAfter(a: string, b: string)
    requires IsTrimmed(a + ("\n" + b))
    ensures Trim(b) != []
  {
    var t := a + ("\n" + b);
    assert t[|t| - 1] == ("\n" + b)[|b|];
    assert b[|b| - 1] == t[|t| - 1];
  }

  // ---------------------------------------------------------------------------
  // The parser as written

  /** The book record created the first time a title is met. */
  function NewBook(title: string): Book {
    Book(title, [], -1, false)
  }

  /** Look the title up, adding a fresh book at the end when it is missing. */
  function Ensure(m: seq<Book>, title: string): seq<Book> {
    if title in Titles(m) then m else m + [NewBook(title)]
  }

  /** The effect of a chunk of three lines or more on its book: the position
      becomes the latest when it is higher, and a non-empty content is pushed. */
  function Record(b: Book, metadata: string, content: string, position: int): (r: Book)
    ensures r.title == b.title && r.selected == b.selected
    ensures r.latestPosition >= b.latestPosition && r.latestPosition >= position
    ensures r.latestPosition == b.latestPosition || r.latestPosition == position
    ensures |b.highlights| <= |r.highlights| <= |b.highlights| + 1
    ensures r.highlights[..|b.highlights|] == b.highlights
    ensures |r.highlights| > |b.highlights| <==> content != []
    ensures content != [] ==> r.highlights[|b.highlights|] == Highlight(metadata, content, position)
  {
    b.(latestPosition := if position > b.latestPosition then position else b.latestPosition,
       highlights := if content != [] then b.highlights + [Highlight(metadata, content, position)]
                     else b.highlights)
  }

  /** Apply `Record` to the book with the given title. */
  function RecordFor(m: seq<Book>, title: string, metadata: string, content: string, position: int): seq<Book> {
    seq(|m|, i requires 0 <= i < |m| =>
      if m[i].title == title then Record(m[i], metadata, content, position) else m[i])
  }

  /** The body of the `forEach` over the chunks, for chunk number `position`. */
  function Step(m: seq<Book>, e: Entry, position: int): seq<Book> {
    match e
    case Skipped => m
    case TitleOnly(t) => Ensure(m, t)
    case Clipping(t, metadata, content) => RecordFor(Ensure(m, t), t, metadata, content, position)
  }

  /** The title-to-book map after folding the given entries, in the order the
      titles were first met (the entry's index is its position). */
  function BookMap(es: seq<Entry>): (m: seq<Book>)
    ensures |m| <= |es| && DistinctTitles(m)
    decreases |es|
  {
    if es == [] then []
    else
      var n := |es| - 1;
      var prev, e := BookMap(es[..n]), es[n];
      StepTitles(prev, e, n);
      TitlesDistinct(prev, Step(prev, e, n), if !e.Skipped? && e.title !in Titles(prev) then [e.title] else []);
      Step(prev, e, n)
  }

  /** The entries of a clippings file, one per chunk of the split. */
  function Entries(content: string): seq<Entry>
  {
    var chunks := Split(content, Delimiter);
    seq(|chunks|, i requires 0 <= i < |chunks| => ParseEntry(chunks[i]))
  }

  /** Eleven `=` in a row: the chunk boundary is the leftmost ten, so the
      eleventh starts the next chunk. */
  lemma SplitExample()
    ensures Split("A\n===========B", Delimiter) == ["A\n", "=B"]
  {
    var parts := ["A\n", "=B"];
    assert Join(parts, Delimiter) == "A\n===========B";
    assert !Contains(parts[0], Delimiter) && !Contains(parts[1], Delimiter);
    forall k: nat | k < 2 ensures !IsAt("A\n===========B", Delimiter, k) {
      assert "A\n===========B"[k] != '=';
    }
    assert parts[1..] == ["=B"];
    SplitUnique(parts, Delimiter);
  }

  /** `parseClippings`: the books of a clippings file, most recent first. */
  function ParseClippings(content: string): (books: seq<Book>)
    ensures |books| <= |Split(content, Delimiter)|
    ensures DistinctTitles(books)
    ensures SortedByRecency(books)
    ensures forall i :: 0 <= i < |books| ==> !books[i].selected
  {
    EntriesWellFormed(content);
    SortedBooks(Entries(content));
    SortByRecency(BookMap(Entries(content)))
  }

  // ---------------------------------------------------------------------------
  // The books described chunk by chunk

  /** The entry creates or finds the book titled `t`. */
  predicate Names(e: Entry, t: string) {
    !e.Skipped? && e.title == t
  }

  /** The entry adds a quote to the book titled `t`. */
  predicate Quotes(e: Entry, t: string) {
    e.Clipping? && e.title == t
  }

  predicate Mentions(es: seq<Entry>, t: string) {
    exists i :: 0 <= i < |es| && Names(es[i], t)
  }

  /** The index of the first entry naming `t`, or -1. */
  function FirstMention(es: seq<Entry>, t: string): (r: int)
    ensures -1 <= r < |es|
    ensures r == -1 <==> !Mentions(es, t)
    ensures r >= 0 ==> Names(es[r], t) && forall i :: 0 <= i < r ==> !Names(es[i], t)
    decreases |es|
  {
    if es == [] then -1
    else
      var n := |es| - 1;
      var r := FirstMention(es[..n], t);
      assert forall i :: 0 <= i < n ==> es[..n][i] == es[i];
      if r >= 0 then r
      else if Names(es[n], t) then n
      else -1
  }

  /** The index of the last entry quoting for `t`, or -1. */
  function LatestQuote(es: seq<Entry>, t: string): (r: int)
    ensures -1 <= r < |es|
    ensures r == -1 <==> forall i :: 0 <= i < |es| ==> !Quotes(es[i], t)
    ensures r >= 0 ==> Quotes(es[r], t) && forall i :: r < i < |es| ==> !Quotes(es[i], t)
    decreases |es|
  {
    if es == [] then -1
    else
      var n := |es| - 1;
      var r := LatestQuote(es[..n], t);
      assert forall i :: 0 <= i < n ==> es[..n][i] == es[i];
      if Quotes(es[n], t) then n else r
  }

  /** The quotes for `t`, one per quoting entry, in file order. */
  function QuotesOf(es: seq<Entry>, t: string): seq<Highlight>
    decreases |es|
  {
    if es == [] then []
    else
      var n := |es| - 1;
      var e := es[n];
      QuotesOf(es[..n], t) + (if Quotes(e, t) then [Highlight(e.metadata, e.content, n)] else [])
  }

  /** The book titled `t` as the entries describe it. */
  function BookFor(es: seq<Entry>, t: string): Book {
    Book(t, QuotesOf(es, t), LatestQuote(es, t), false)
  }

  /** Each quote of a book comes from an entry quoting for it, at its position. */
  lemma {:induction false} QuotesFromEntries(es: seq<Entry>, t: string)
    ensures forall j :: 0 <= j < |QuotesOf(es, t)| ==> 0 <= QuotesOf(es, t)[j].position < |es|
    ensures forall j :: 0 <= j < |QuotesOf(es, t)| ==>
      var h := QuotesOf(es, t)[j]; es[h.position] == Clipping(t, h.metadata, h.content)
    decreases |es|
  {
    if es != [] {
      var n := |es| - 1;
      QuotesFromEntries(es[..n], t);
      var hs0 := QuotesOf(es[..n], t);
      var hs := QuotesOf(es, t);
      forall j | 0 <= j < |hs|
        ensures 0 <= hs[j].position < |es| && es[hs[j].position] == Clipping(t, hs[j].metadata, hs[j].content)
      {
        if j < |hs0| {
          assert hs[j] == hs0[j];
          assert es[..n][hs0[j].position] == es[hs0[j].position];
        }
      }
    }
  }

  /** The quotes of a book are in strictly increasing file order. */
  lemma {:induction false} QuotesInFileOrder(es: seq<Entry>, t: string)
    ensures forall j, k :: 0 <= j < k < |QuotesOf(es, t)| ==>
      QuotesOf(es, t)[j].position < QuotesOf(es, t)[k].position
    decreases |es|
  {
    if es != [] {
      var n := |es| - 1;
      QuotesInFileOrder(es[..n], t);
      QuotesFromEntries(es[..n], t);
      var hs0 := QuotesOf(es[..n], t);
      var hs := QuotesOf(es, t);
      assert forall j :: 0 <= j < |hs0| ==> hs0[j].position < n;
      assert forall j, k :: 0 <= j < k < |hs0| ==> hs0[j].position < hs0[k].position;
      if Quotes(es[n], t) {
        assert hs == hs0 + [Highlight(es[n].metadata, es[n].content, n)];
        forall j, k | 0 <= j < k < |hs| ensures hs[j].position < hs[k].position {
          assert hs[j] == hs0[j];
          if k < |hs0| {
            assert hs[k] == hs0[k];
          } else {
            assert hs[k].position == n;
          }
        }
      } else {
        assert hs == hs0;
      }
    }
  }

  /** Every entry quoting for a book contributes one of its quotes. */
  lemma {:induction false} QuotesComplete(es: seq<Entry>, t: string)
    ensures forall i :: 0 <= i < |es| && Quotes(es[i], t) ==>
      Highlight(es[i].metadata, es[i].content, i) in QuotesOf(es, t)
    decreases |es|
  {
    if es != [] {
      var n := |es| - 1;
      QuotesComplete(es[..n], t);
      forall i | 0 <= i < n && Quotes(es[i], t)
        ensures Highlight(es[i].metadata, es[i].content, i) in QuotesOf(es[..n], t)
      {
        assert es[..n][i] == es[i];
      }
    }
  }

  /** A book's quotes lie between the start of the file and its latest
      position, and it has none exactly when that position is -1. */
  lemma QuotesWithinLatest(es: seq<Entry>, t: string)
    ensures forall j :: 0 <= j < |QuotesOf(es, t)| ==>
      0 <= QuotesOf(es, t)[j].position <= LatestQuote(es, t)
    ensures QuotesOf(es, t) == [] <==> LatestQuote(es, t) == -1
  {
    QuotesFromEntries(es, t);
    QuotesComplete(es, t);
    var hs := QuotesOf(es, t);
    var r := LatestQuote(es, t);
    if r >= 0 {
      assert Highlight(es[r].metadata, es[r].content, r) in hs;
    }
    forall j | 0 <= j < |hs| ensures 0 <= hs[j].position <= r {
      assert Quotes(es[hs[j].position], t);
    }
  }

  // ---------------------------------------------------------------------------
  // The parser builds exactly the described books

  /** The map holds one book per title the entries name, in first-met order,
      each equal to its description. */
  ghost predicate Agrees(es: seq<Entry>, m: seq<Book>) {
    && |m| <= |es|
    && DistinctTitles(m)
    && (forall t :: t in Titles(m) <==> Mentions(es, t))
    && (forall i :: 0 <= i < |m| ==> m[i] == BookFor(es, m[i].title))
    && (forall i, j :: 0 <= i < j < |m| ==> FirstMention(es, m[i].title) < FirstMention(es, m[j].title))
  }

  /** The title list after an entry: its title is appended when it is new. */
  function AddTitle(ts: seq<string>, e: Entry): seq<string> {
    ts + (if !e.Skipped? && e.title !in ts then [e.title] else [])
  }

  lemma StepTitles(m: seq<Book>, e: Entry, n: int)
    ensures Titles(Step(m, e, n)) ==
      AddTitle(Titles(m), e)
  {
  }

  lemma ExtendMentions(es: seq<Entry>, e: Entry, t: string)
    ensures Mentions(es + [e], t) <==> Mentions(es, t) || Names(e, t)
  {
    var es' := es + [e];
    if Mentions(es', t) && !Names(e, t) {
      var i :| 0 <= i < |es'| && Names(es'[i], t);
      assert es[i] == es'[i];
    }
    if Mentions(es, t) {
      var i :| 0 <= i < |es| && Names(es[i], t);
      assert es'[i] == es[i];
    }
    assert es'[|es|] == e;
  }

  /** An entry as `ParseEntry` produces it: a clipping always has content. */
  predicate WellFormed(e: Entry) {
    e.Clipping? ==> e.content != []
  }

  /** The first mention of a title after one more entry is read. */
  lemma ExtendFirst(es: seq<Entry>, e: Entry, t: string)
    ensures FirstMention(es + [e], t) ==
      (if Mentions(es, t) then FirstMention(es, t) else if Names(e, t) then |es| else -1)
  {
    var es' := es + [e];
    assert es'[..|es|] == es && es'[|es|] == e;
  }

  /** How the description of a title changes when one more entry is read. */
  lemma Extend(es: seq<Entry>, e: Entry, t: string)
    requires WellFormed(e)
    ensures FirstMention(es + [e], t) ==
      (if Mentions(es, t) then FirstMention(es, t) else if Names(e, t) then |es| else -1)
    ensures BookFor(es + [e], t) ==
      (if Quotes(e, t) then Record(BookFor(es, t), e.metadata, e.content, |es|) else BookFor(es, t))
  {
    var es' := es + [e];
    assert es'[..|es|] == es && es'[|es|] == e;
  }

  /** What reading one more entry does to the map's titles and their books. */
  lemma StepFacts(es: seq<Entry>, e: Entry)
    requires WellFormed(e)
    ensures var m, m' := BookMap(es), BookMap(es + [e]);
      && m' == Step(m, e, |es|)
      && Titles(m') == AddTitle(Titles(m), e)
      && (forall t :: Mentions(es + [e], t) <==> Mentions(es, t) || Names(e, t))
      && (forall t :: FirstMention(es + [e], t) ==
            (if Mentions(es, t) then FirstMention(es, t) else if Names(e, t) then |es| else -1))
      && (forall t :: BookFor(es + [e], t) ==
            (if Quotes(e, t) then Record(BookFor(es, t), e.metadata, e.content, |es|) else BookFor(es, t)))
  {
    assert (es + [e])[..|es|] == es && (es + [e])[|es|] == e;
    StepTitles(BookMap(es), e, |es|);
    forall t ensures Mentions(es + [e], t) <==> Mentions(es, t) || Names(e, t) {
      ExtendMentions(es, e, t);
    }
    forall t ensures FirstMention(es + [e], t) ==
        (if Mentions(es, t) then FirstMention(es, t) else if Names(e, t) then |es| else -1)
      ensures BookFor(es + [e], t) ==
        (if Quotes(e, t) then Record(BookFor(es, t), e.metadata, e.content, |es|) else BookFor(es, t))
    {
      Extend(es, e, t);
    }
  }

  /** Reading one more entry appends its title to the map's titles when it is
      new. */
  lemma StepTitlesOf(es: seq<Entry>, e: Entry)
    ensures Titles(BookMap(es + [e])) == AddTitle(Titles(BookMap(es)), e)
  {
    var es' := es + [e];
    assert es'[..|es|] == es && es'[|es|] == e;
    StepTitles(BookMap(es), e, |es|);
  }

  /** Reading one more entry keeps the map's titles exactly the named ones. */
  lemma StepKeepsMentions(es: seq<Entry>, e: Entry)
    requires forall t :: t in Titles(BookMap(es)) <==> Mentions(es, t)
    ensures forall t :: t in Titles(BookMap(es + [e])) <==> Mentions(es + [e], t)
  {
    StepTitlesOf(es, e);
    forall t ensures t in Titles(BookMap(es + [e])) <==> Mentions(es + [e], t) {
      ExtendMentions(es, e, t);
    }
  }

  /** Reading one more entry keeps the map's books in first-met order. */
  lemma StepKeepsOrder(es: seq<Entry>, e: Entry)
    requires forall t :: t in Titles(BookMap(es)) <==> Mentions(es, t)
    requires forall i, j :: 0 <= i < j < |BookMap(es)| ==>
      FirstMention(es, BookMap(es)[i].title) < FirstMention(es, BookMap(es)[j].title)
    ensures forall i, j :: 0 <= i < j < |BookMap(es + [e])| ==>
      FirstMention(es + [e], BookMap(es + [e])[i].title) < FirstMention(es + [e], BookMap(es + [e])[j].title)
  {
    var m, m' := BookMap(es), BookMap(es + [e]);
    FirstMetTitles(es, m);
    OrderedTitles(es, e, Titles(m));
    StepTitlesOf(es, e);
    FirstMetTitles(es + [e], m');
  }

  /** The titles, in order, have increasing first mentions. */
  ghost predicate FirstMetOrder(es: seq<Entry>, ts: seq<string>) {
    forall i, j :: 0 <= i < j < |ts| ==> FirstMention(es, ts[i]) < FirstMention(es, ts[j])
  }

  lemma FirstMetTitles(es: seq<Entry>, m: seq<Book>)
    ensures FirstMetOrder(es, Titles(m)) <==>
      forall i, j :: 0 <= i < j < |m| ==> FirstMention(es, m[i].title) < FirstMention(es, m[j].title)
  {
    assert forall i :: 0 <= i < |m| ==> Titles(m)[i] == m[i].title;
  }

  /** One more entry keeps a list of mentioned titles in first-met order, when
      its title goes at the end if it is new. */
  lemma OrderedTitles(es: seq<Entry>, e: Entry, ts: seq<string>)
    requires forall t :: t in ts <==> Mentions(es, t)
    requires FirstMetOrder(es, ts)
    ensures FirstMetOrder(es + [e], AddTitle(ts, e))
  {
    var ts' := AddTitle(ts, e);
    forall i, j | 0 <= i < j < |ts'|
      ensures FirstMention(es + [e], ts'[i]) < FirstMention(es + [e], ts'[j])
    {
      assert ts'[i] == ts[i] && ts[i] in ts;
      ExtendFirst(es, e, ts[i]);
      ExtendFirst(es, e, ts'[j]);
      if j < |ts| {
        assert ts'[j] == ts[j] && ts[j] in ts;
      }
    }
  }

  /** Appending at most one title that is not there yet keeps titles distinct. */
  lemma TitlesDistinct(m: seq<Book>, m': seq<Book>, extra: seq<string>)
    requires DistinctTitles(m)
    requires Titles(m') == Titles(m) + extra
    requires |extra| <= 1 && forall x :: x in extra ==> x !in Titles(m)
    ensures DistinctTitles(m')
  {
    forall i, j | 0 <= i < j < |m'| ensures m'[i].title != m'[j].title {
      assert m'[i].title == Titles(m')[i] && m'[j].title == Titles(m')[j];
      assert m[i].title == Titles(m)[i];
      if j < |m| {
        assert m[j].title == Titles(m)[j];
      } else {
        assert Titles(m')[j] in extra;
        assert Titles(m)[i] in Titles(m);
      }
    }
  }

  /** Reading one more entry keeps every book equal to its description. */
  lemma StepKeepsBooks(es: seq<Entry>, e: Entry)
    requires WellFormed(e)
    requires Agrees(es, BookMap(es))
    ensures var m' := BookMap(es + [e]);
      forall i :: 0 <= i < |m'| ==> m'[i] == BookFor(es + [e], m'[i].title)
  {
    var n := |es|;
    var es' := es + [e];
    var m, m' := BookMap(es), BookMap(es');
    StepFacts(es, e);
    assert |m'| == |Titles(m')|;
    forall i | 0 <= i < |m'| ensures m'[i] == BookFor(es', m'[i].title) {
      var t := m'[i].title;
      assert t == Titles(m')[i];
      if i < |m| {
        assert t == m[i].title;
        if Quotes(e, t) {
          assert m'[i] == Record(m[i], e.metadata, e.content, n);
        } else {
          assert m'[i] == m[i];
        }
      } else {
        assert !Mentions(es, t);
        QuotesWithinLatest(es, t);
        assert BookFor(es, t) == NewBook(t);
        if e.Clipping? {
          assert m'[i] == Record(NewBook(t), e.metadata, e.content, n);
        }
      }
    }
  }

  /** The fold builds exactly the described books, one per named title, in the
      order the titles first appear. */
  lemma {:induction false} BookMapAgrees(es: seq<Entry>)
    requires forall i :: 0 <= i < |es| ==> WellFormed(es[i])
    ensures Agrees(es, BookMap(es))
    decreases |es|
  {
    if es != [] {
      var n := |es| - 1;
      assert es[..n] + [es[n]] == es;
      BookMapAgrees(es[..n]);
      StepKeepsMentions(es[..n], es[n]);
      StepKeepsOrder(es[..n], es[n]);
      StepKeepsBooks(es[..n], es[n]);
    }
  }

  /** Every entry of a file is as `ParseEntry` makes it. */
  lemma EntriesWellFormed(content: string)
    ensures forall i :: 0 <= i < |Entries(content)| ==> WellFormed(Entries(content)[i])
  {
  }

  /** The sorted map has at most one book per entry, distinct titles, and no
      book selected. */
  lemma SortedBooks(es: seq<Entry>)
    requires forall i :: 0 <= i < |es| ==> WellFormed(es[i])
    ensures |SortByRecency(BookMap(es))| <= |es|
    ensures DistinctTitles(SortByRecency(BookMap(es)))
    ensures forall i :: 0 <= i < |SortByRecency(BookMap(es))| ==> !SortByRecency(BookMap(es))[i].selected
  {
    var m := BookMap(es);
    var r := SortByRecency(m);
    assert |m| <= |es| && DistinctTitles(m) && forall b :: b in m ==> !b.selected by {
      BookMapAgrees(es);
      forall b | b in m ensures !b.selected {
        var k :| 0 <= k < |m| && m[k] == b;
      }
    }
    SortKeepsBooks(m);
    forall i | 0 <= i < |r| ensures !r[i].selected {
      assert r[i] in r;
    }
  }

  /** What `parseClippings` returns, book by book: exactly the titles the file
      names, each with its description, and books with the same latest
      position in the order their titles first appear. */
  lemma ParseClippingsAgrees(content: string)
    ensures forall t :: t in Titles(ParseClippings(content)) <==> Mentions(Entries(content), t)
    ensures forall i :: 0 <= i < |ParseClippings(content)| ==>
      ParseClippings(content)[i] == BookFor(Entries(content), ParseClippings(content)[i].title)
    ensures forall i, j ::
      (0 <= i < j < |ParseClippings(content)| &&
       ParseClippings(content)[i].latestPosition == ParseClippings(content)[j].latestPosition) ==>
        FirstMention(Entries(content), ParseClippings(content)[i].title) <
        FirstMention(Entries(content), ParseClippings(content)[j].title)
  {
    EntriesWellFormed(content);
    SortedTitles(Entries(content));
    SortedDescribed(Entries(content));
    SortedTies(Entries(content));
  }

  lemma SortedTitles(es: seq<Entry>)
    requires forall i :: 0 <= i < |es| ==> WellFormed(es[i])
    ensures forall t :: t in Titles(SortByRecency(BookMap(es))) <==> Mentions(es, t)
  {
    var m := BookMap(es);
    var r := SortByRecency(m);
    assert forall t :: t in Titles(m) <==> Mentions(es, t) by {
      BookMapAgrees(es);
    }
    assert forall t :: t in Titles(r) <==> t in Titles(m) by {
      SortKeepsBooks(m);
      TitlesWithin(r, m);
      TitlesWithin(m, r);
    }
  }

  /** The books of `a` are among those of `b`, so their titles are too. */
  lemma TitlesWithin(a: seq<Book>, b: seq<Book>)
    requires forall x :: x in a ==> x in b
    ensures forall t :: t in Titles(a) ==> t in Titles(b)
  {
    forall t | t in Titles(a) ensures t in Titles(b) {
      var i :| 0 <= i < |a| && Titles(a)[i] == t;
      assert a[i] in b;
      var k :| 0 <= k < |b| && b[k] == a[i];
      assert Titles(b)[k] == t;
    }
  }

  lemma SortedDescribed(es: seq<Entry>)
    requires forall i :: 0 <= i < |es| ==> WellFormed(es[i])
    ensures forall i :: 0 <= i < |SortByRecency(BookMap(es))| ==>
      SortByRecency(BookMap(es))[i] == BookFor(es, SortByRecency(BookMap(es))[i].title)
  {
    var m := BookMap(es);
    var r := SortByRecency(m);
    assert forall i :: 0 <= i < |m| ==> m[i] == BookFor(es, m[i].title) by {
      BookMapAgrees(es);
    }
    assert forall x :: x in r ==> x in m by {
      SortKeepsBooks(m);
    }
    DescribedWithin(es, r, m);
  }

  /** Books taken from a described list are described too. */
  lemma DescribedWithin(es: seq<Entry>, a: seq<Book>, b: seq<Book>)
    requires forall x :: x in a ==> x in b
    requires forall i :: 0 <= i < |b| ==> b[i] == BookFor(es, b[i].title)
    ensures forall i :: 0 <= i < |a| ==> a[i] == BookFor(es, a[i].title)
  {
    forall i | 0 <= i < |a| ensures a[i] == BookFor(es, a[i].title) {
      assert a[i] in b;
    }
  }

  lemma SortedTies(es: seq<Entry>)
    requires forall i :: 0 <= i < |es| ==> WellFormed(es[i])
    ensures forall i, j ::
      (0 <= i < j < |SortByRecency(BookMap(es))| &&
       SortByRecency(BookMap(es))[i].latestPosition == SortByRecency(BookMap(es))[j].latestPosition) ==>
        FirstMention(es, SortByRecency(BookMap(es))[i].title) <
        FirstMention(es, SortByRecency(BookMap(es))[j].title)
  {
    var r := SortByRecency(BookMap(es));
    forall i, j | 0 <= i < j < |r| && r[i].latestPosition == r[j].latestPosition
      ensures FirstMention(es, r[i].title) < FirstMention(es, r[j].title)
    {
      SortedTie(es, i, j);
    }
  }

  lemma SortedTie(es: seq<Entry>, i: nat, j: nat)
    requires forall i :: 0 <= i < |es| ==> WellFormed(es[i])
    requires i < j < |SortByRecency(BookMap(es))|
    requires SortByRecency(BookMap(es))[i].latestPosition == SortByRecency(BookMap(es))[j].latestPosition
    ensures FirstMention(es, SortByRecency(BookMap(es))[i].title) <
      FirstMention(es, SortByRecency(BookMap(es))[j].title)
  {
    var m := BookMap(es);
    var r := SortByRecency(m);
    SortKeepsTieOrder(m, i, j);
    var i', j' :| 0 <= i' < j' < |m| && m[i'] == r[i] && m[j'] == r[j];
    assert FirstMention(es, m[i'].title) < FirstMention(es, m[j'].title) by {
      BookMapAgrees(es);
    }
  }

  /** `t` is the trimmed first line of a chunk of two lines or more. */
  predicate TitleLine(chunk: string, t: string) {
    '\n' in Trim(chunk) && t == Trim(FirstLine(Trim(chunk)))
  }

  /** `t` is the trimmed first line of some chunk of the file that has two
      lines or more. */
  predicate FirstLineOfSomeChunk(content: string, t: string) {
    exists j :: 0 <= j < |Split(content, Delimiter)| && TitleLine(Split(content, Delimiter)[j], t)
  }

  /** Every title in the result is non-empty, trimmed, and the trimmed first
      line of some chunk of two lines or more. */
  lemma ParsedTitles(content: string)
    ensures forall i :: 0 <= i < |ParseClippings(content)| ==>
      && ParseClippings(content)[i].title != []
      && IsTrimmed(ParseClippings(content)[i].title)
      && FirstLineOfSomeChunk(content, ParseClippings(content)[i].title)
  {
    var r := ParseClippings(content);
    assert forall t :: t in Titles(r) ==> Mentions(Entries(content), t) by {
      EntriesWellFormed(content);
      SortedTitles(Entries(content));
    }
    forall i | 0 <= i < |r|
      ensures r[i].title != [] && IsTrimmed(r[i].title) && FirstLineOfSomeChunk(content, r[i].title)
    {
      assert Titles(r)[i] == r[i].title;
      MentionedTitle(content, r[i].title);
    }
  }

  lemma MentionedTitle(content: string, t: string)
    requires Mentions(Entries(content), t)
    ensures t != [] && IsTrimmed(t)
    ensures FirstLineOfSomeChunk(content, t)
  {
    var es, chunks := Entries(content), Split(content, Delimiter);
    var k :| 0 <= k < |es| && Names(es[k], t);
    assert es[k] == ParseEntry(chunks[k]);
    var l0, l1, rest := EntryLines(chunks[k]);
    assert TitleLine(chunks[k], t);
  }

  /** A title that no chunk of three lines or more names (it appeared only in
      two-line chunks) still gets a book, with no highlights and position -1,
      so it sorts after every book that has a quote. */
  lemma TitleOnlyBooks(content: string, t: string)
    requires Mentions(Entries(content), t)
    requires forall i :: 0 <= i < |Entries(content)| ==> !Quotes(Entries(content)[i], t)
    ensures exists i ::
              && 0 <= i < |ParseClippings(content)|
              && ParseClippings(content)[i] == Book(t, [], -1, false)
  {
    var r := ParseClippings(content);
    ParseClippingsAgrees(content);
    QuotesWithinLatest(Entries(content), t);
    var i :| 0 <= i < |r| && Titles(r)[i] == t;
    assert r[i] == BookFor(Entries(content), t);
  }

  // ---------------------------------------------------------------------------
  // Sorting keeps the books

  lemma {:induction false} SortKeepsBooks(m: seq<Book>)
    ensures var r := SortByRecency(m);
      && |r| == |m|
      && (forall b :: b in r <==> b in m)
      && (DistinctTitles(m) ==> DistinctTitles(r))
  {
    var r := SortByRecency(m);
    assert |r| == |multiset(r)| == |multiset(m)| == |m|;
    assert forall b :: b in r <==> b in multiset(r);
    assert forall b :: b in m <==> b in multiset(m);
    if DistinctTitles(m) {
      SortDistinct(m);
    }
  }

  lemma DistinctCons(x: Book, s: seq<Book>)
    ensures DistinctTitles([x] + s) <==>
      DistinctTitles(s) && forall y :: y in s ==> y.title != x.title
  {
    var xs := [x] + s;
    if DistinctTitles(xs) {
      forall i, j | 0 <= i < j < |s| ensures s[i].title != s[j].title {
        assert s[i] == xs[i + 1] && s[j] == xs[j + 1];
      }
      forall y | y in s ensures y.title != x.title {
        var k :| 0 <= k < |s| && s[k] == y;
        assert xs[0] == x && xs[k + 1] == y;
      }
    }
    if DistinctTitles(s) && forall y :: y in s ==> y.title != x.title {
      forall i, j | 0 <= i < j < |xs| ensures xs[i].title != xs[j].title {
        assert xs[j] == s[j - 1];
        assert s[j - 1] in s;
        if i > 0 {
          assert xs[i] == s[i - 1];
        }
      }
    }
  }

  lemma InsertMembers(b: Book, s: seq<Book>)
    ensures forall x :: x in Insert(b, s) <==> x == b || x in s
  {
    var r := Insert(b, s);
    forall x ensures x in r <==> x == b || x in s {
      assert x in r <==> x in multiset(r);
      assert x in [b] + s <==> x in multiset([b] + s);
    }
  }

  lemma {:induction false} InsertDistinct(b: Book, s: seq<Book>)
    requires DistinctTitles([b] + s)
    ensures DistinctTitles(Insert(b, s))
  {
    if s != [] && b.latestPosition < s[0].latestPosition {
      var t := Insert(b, s[1..]);
      DistinctCons(b, s);
      assert s == [s[0]] + s[1..];
      DistinctCons(s[0], s[1..]);
      assert forall y :: y in s[1..] ==> y in s;
      DistinctCons(b, s[1..]);
      InsertDistinct(b, s[1..]);
      InsertMembers(b, s[1..]);
      assert s[0] in s;
      DistinctCons(s[0], t);
      assert Insert(b, s) == [s[0]] + t;
    }
  }

  lemma {:induction false} SortDistinct(s: seq<Book>)
    requires DistinctTitles(s)
    ensures DistinctTitles(SortByRecency(s))
  {
    if s != [] {
      var t := SortByRecency(s[1..]);
      assert s == [s[0]] + s[1..];
      DistinctCons(s[0], s[1..]);
      SortDistinct(s[1..]);
      forall x | x in t ensures x in s[1..] {
        assert x in multiset(t);
        assert x in multiset(s[1..]);
      }
      DistinctCons(s[0], t);
      InsertDistinct(s[0], t);
    }
  }
}
