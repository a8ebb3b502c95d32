/**
  The export of the selected books (`exportHighlights` in src/main.js): each
  book becomes one Markdown file named after its sanitised title, written into
  the chosen directory one after the other. The file writer is not modelled;
  the outcome of each write attempt is given as a parameter instead.
 */
module Export {
  import opened Text
  import opened Model
  import opened Paths
  import opened Selection

  // ---------------------------------------------------------------------------
  // File names

  /** The characters `[\\/:*?"<>|]` that cannot appear in a file name. */
  predicate IsForbidden(c: char) {
    c == '\\' || c == '/' || c == ':' || c == '*' || c == '?' || c == '"' || c == '<' || c == '>' || c == '|'
  }

  /** `replace(/[\\/:*?"<>|]/g, '_')` */
  function ReplaceForbidden(t: string): (r: string)
    ensures |r| == |t|
    ensures forall i :: 0 <= i < |r| ==> !IsForbidden(r[i])
    ensures forall i :: 0 <= i < |r| ==> (IsForbidden(t[i]) ==> r[i] == '_') && (!IsForbidden(t[i]) ==> r[i] == t[i])
  {
    seq(|t|, i requires 0 <= i < |t| => if IsForbidden(t[i]) then '_' else t[i])
  }

  /** A name that sanitising leaves alone: no forbidden character, no white
      space at either end, white space only as single ordinary spaces. */
  predicate Clean(s: string) {
    && (forall i :: 0 <= i < |s| ==> !IsForbidden(s[i]))
    && IsTrimmed(s)
    && Isolated(s, IsSpace)
    && (forall i :: 0 <= i < |s| && IsSpace(s[i]) ==> s[i] == ' ')
  }

  /** The file-name sanitiser: forbidden characters become `_`, every run of
      white space one space, and the ends are trimmed. Apart from white space
      the name keeps the title's characters, in order. */
  function Sanitize(title: string): (r: string)
    ensures Clean(r)
    ensures Without(r, IsSpace) == Without(ReplaceForbidden(title), IsSpace)
  {
    var replaced := ReplaceForbidden(title);
    var collapsed := CollapseRuns(replaced, IsSpace, ' ');
    SanitizeSteps(replaced);
    Trim(collapsed)
  }

  lemma SanitizeSteps(replaced: string)
    requires forall i :: 0 <= i < |replaced| ==> !IsForbidden(replaced[i])
    ensures var r := Trim(CollapseRuns(replaced, IsSpace, ' '));
      && Clean(r)
      && Without(r, IsSpace) == Without(replaced, IsSpace)
  {
    var collapsed := CollapseRuns(replaced, IsSpace, ' ');
    var r := Trim(collapsed);
    assert Without(r, IsSpace) == Without(replaced, IsSpace) by {
      CollapseRunsKeeps(replaced, IsSpace, ' ');
      TrimKeeps(collapsed);
    }
    assert Isolated(r, IsSpace) by {
      TrimInfix(collapsed);
    }
    assert forall i :: 0 <= i < |r| ==> NameChar(r[i]) by {
      CollapsedChars(replaced);
      TrimmedChars(collapsed);
    }
    NameChars(r);
  }

  lemma NameChars(r: string)
    requires forall i :: 0 <= i < |r| ==> NameChar(r[i])
    ensures forall i :: 0 <= i < |r| ==> !IsForbidden(r[i])
    ensures forall i :: 0 <= i < |r| && IsSpace(r[i]) ==> r[i] == ' '
  {
  }

  /** A character a sanitised name may hold. */
  predicate NameChar(c: char) {
    c == ' ' || (!IsForbidden(c) && !IsSpace(c))
  }

  /** Collapsing white space in a name free of forbidden characters leaves
      ordinary spaces and characters that are neither forbidden nor blank. */
  lemma CollapsedChars(replaced: string)
    requires forall i :: 0 <= i < |replaced| ==> !IsForbidden(replaced[i])
    ensures forall c :: c in CollapseRuns(replaced, IsSpace, ' ') ==> NameChar(c)
  {
    CollapseRunsChars(replaced, IsSpace, ' ');
    forall c | c in CollapseRuns(replaced, IsSpace, ' ') && c != ' ' ensures NameChar(c) {
      var k :| 0 <= k < |replaced| && replaced[k] == c;
    }
  }

  lemma TrimmedChars(collapsed: string)
    requires forall c :: c in collapsed ==> NameChar(c)
    ensures forall i :: 0 <= i < |Trim(collapsed)| ==> NameChar(Trim(collapsed)[i])
  {
    var r := Trim(collapsed);
    TrimInfix(collapsed);
    forall i | 0 <= i < |r| ensures NameChar(r[i]) {
      assert r[i] in r;
    }
  }

  /** Sanitising changes a name exactly when it is not already clean. */
  lemma SanitizeFixed(t: string)
    ensures Sanitize(t) == t <==> Clean(t)
  {
    if Clean(t) {
      assert ReplaceForbidden(t) == t;
      CollapseRunsFixed(t, IsSpace, ' ');
    }
  }

  /** Sanitising twice is sanitising once. */
  lemma SanitizeIdempotent(t: string)
    ensures Sanitize(Sanitize(t)) == Sanitize(t)
  {
    SanitizeFixed(Sanitize(t));
  }

  /** A title with something other than white space in it never sanitises to
      the empty name. */
  lemma SanitizeNonEmpty(t: string)
    requires !All(t, IsSpace)
    ensures Sanitize(t) != []
  {
    var replaced := ReplaceForbidden(t);
    var k :| 0 <= k < |t| && !IsSpace(t[k]);
    assert !IsSpace(replaced[k]);
    assert Without(replaced, IsSpace) != [];
  }

  /** A title with a slash and a colon. */
  lemma SanitizeExample()
    ensures Sanitize("My/Book: Test") == "My_Book_ Test"
  {
    var t, s := "My/Book: Test", "My_Book_ Test";
    assert ReplaceForbidden(t) == s;
    assert ReplaceForbidden(s) == s;
    assert Clean(s) by {
      assert forall i :: 0 <= i < |s| && i != 8 ==> !IsSpace(s[i]) && !IsForbidden(s[i]);
      assert s[8] == ' ';
      assert Isolated(s, IsSpace) by {
        forall i | 0 < i < |s| ensures !(IsSpace(s[i - 1]) && IsSpace(s[i])) {
          assert i - 1 != 8 || i != 8;
        }
      }
    }
    SanitizeFixed(s);
  }

  /** Replacing forbidden characters works character by character. */
  lemma ReplaceForbiddenAppend(a: string, b: string)
    ensures ReplaceForbidden(a + b) == ReplaceForbidden(a) + ReplaceForbidden(b)
  {
  }

  /** A run of white space inside a title becomes exactly one space, and the
      text on either side is sanitised on its own. */
  lemma SanitizeAround(x: string, w: string, y: string)
    requires x != [] && !IsSpace(x[|x| - 1])
    requires w != [] && All(w, IsSpace)
    requires y != [] && !IsSpace(y[0])
    ensures Sanitize(x + w + y) == Sanitize(x) + " " + Sanitize(y)
  {
    var rx, ry := ReplaceForbidden(x), ReplaceForbidden(y);
    ReplaceForbiddenAppend(x, w);
    ReplaceForbiddenAppend(x + w, y);
    assert ReplaceForbidden(w) == w;
    assert ReplaceForbidden(x + w + y) == rx + w + ry;
    assert !IsSpace(rx[|rx| - 1]) && !IsSpace(ry[0]);
    CollapseRunsAround(rx, w, ry, IsSpace, ' ');
    var cx, cy := CollapseRuns(rx, IsSpace, ' '), CollapseRuns(ry, IsSpace, ' ');
    CollapseRunsEnd(rx, IsSpace, ' ');
    StripAround(cx, " ", cy, IsSpace);
  }

  /** Titles that differ only where both hold a forbidden character get the
      same file name. */
  lemma SanitizeCollides(t1: string, t2: string)
    requires |t1| == |t2|
    requires forall i :: 0 <= i < |t1| ==> t1[i] == t2[i] || (IsForbidden(t1[i]) && IsForbidden(t2[i]))
    ensures Sanitize(t1) == Sanitize(t2)
  {
    assert ReplaceForbidden(t1) == ReplaceForbidden(t2);
  }

  /** Different titles can share a file name, so the later book's file
      replaces the earlier one's. */
  lemma SanitizeCollision()
    ensures "A:B" != "A?B" && Sanitize("A:B") == Sanitize("A?B") == "A_B"
  {
    var s := "A_B";
    assert ReplaceForbidden("A:B") == s && ReplaceForbidden("A?B") == s;
    assert ReplaceForbidden(s) == s;
    assert forall i :: 0 <= i < |s| ==> !IsSpace(s[i]) && !IsForbidden(s[i]);
    SanitizeFixed(s);
  }

  // ---------------------------------------------------------------------------
  // The Markdown document

  /** The text added for one highlight: the quote, its metadata in italics, and
      a horizontal rule. */
  function Block(h: Highlight): string {
    "> " + h.content + "\n\n" + "*" + h.metadata + "*\n\n---\n\n"
  }

  /** The highlights' blocks appended one after the other, as the `forEach`
      extends the text. */
  function Blocks(hs: seq<Highlight>): string
    decreases |hs|
  {
    if hs == [] then [] else Blocks(hs[..|hs| - 1]) + Block(hs[|hs| - 1])
  }

  /** The file's text: a level-one heading with the book's title, then the
      blocks of its highlights in stored order. */
  function Document(b: Book): (r: string)
    ensures r == "# " + b.title + "\n\n" + Concat(BlockList(b.highlights))
  {
    BlocksAreConcat(b.highlights);
    "# " + b.title + "\n\n" + Blocks(b.highlights)
  }

  /** Strings concatenated from the front. */
  function Concat(ss: seq<string>): string
    decreases |ss|
  {
    if ss == [] then [] else ss[0] + Concat(ss[1..])
  }

  lemma {:induction false} ConcatAppend(a: seq<string>, b: seq<string>)
    ensures Concat(a + b) == Concat(a) + Concat(b)
    decreases |a|
  {
    if a == [] {
      assert a + b == b;
    } else {
      assert (a + b)[1..] == a[1..] + b;
      ConcatAppend(a[1..], b);
    }
  }

  /** The block of each highlight, position by position. */
  function BlockList(hs: seq<Highlight>): (r: seq<string>)
    ensures |r| == |hs| && forall i :: 0 <= i < |hs| ==> r[i] == Block(hs[i])
  {
    seq(|hs|, i requires 0 <= i < |hs| => Block(hs[i]))
  }

  /** The document body is exactly the blocks of the highlights, one per
      highlight, in stored order. */
  lemma {:induction false} BlocksAreConcat(hs: seq<Highlight>)
    ensures Blocks(hs) == Concat(BlockList(hs))
    decreases |hs|
  {
    if hs != [] {
      var n := |hs| - 1;
      BlocksAreConcat(hs[..n]);
      assert BlockList(hs) == BlockList(hs[..n]) + [Block(hs[n])];
      ConcatAppend(BlockList(hs[..n]), [Block(hs[n])]);
      assert Concat([Block(hs[n])]) == Block(hs[n]);
    }
  }

  /** One more highlight adds its block at the end and changes nothing before. */
  lemma DocumentGrows(b: Book, h: Highlight)
    ensures Document(b.(highlights := b.highlights + [h])) == Document(b) + Block(h)
  {
    var hs := b.highlights + [h];
    assert hs[..|hs| - 1] == b.highlights;
  }

  // ---------------------------------------------------------------------------
  // The write loop

  /** Where a book is written: `joinPaths(outputDir, sanitizedTitle + ".md")`.
      Whatever the directory, the written file's name is the sanitised title
      with `.md`. */
  function ExportPath(outputDir: string, title: string): (path: string)
    ensures Basename(path) == Sanitize(title) + ".md"
  {
    var name := Sanitize(title) + ".md";
    FileNameIsSegment(title);
    BasenameOfJoin(outputDir, name);
    JoinPaths(outputDir, [name])
  }

  /** A file name is a single path segment: the sanitiser removed every slash. */
  lemma FileNameIsSegment(title: string)
    ensures IsSegment(Sanitize(title) + ".md")
  {
    var name := Sanitize(title) + ".md";
    forall i | 0 <= i < |name| ensures name[i] != '/' {
      if i < |Sanitize(title)| {
        assert name[i] == Sanitize(title)[i];
      }
    }
  }

  /** One call of `writeTextFile`. */
  datatype FileWrite = FileWrite(path: string, text: string)

  /** What the writer did with one attempt. */
  datatype Outcome = Written | Failed(message: string)

  /** How the export ended: no book ticked, all books written (the success
      count and the exported titles), or a write failed with a message. */
  datatype Report =
    | NothingSelected
    | Exported(count: nat, titles: seq<string>)
    | ExportFailed(message: string)

  /** The write issued for a book. */
  function WriteFor(outputDir: string, b: Book): FileWrite {
    FileWrite(ExportPath(outputDir, b.title), Document(b))
  }

  /** The writes for a list of books, in order. */
  function Plan(outputDir: string, books: seq<Book>): (r: seq<FileWrite>)
    ensures |r| == |books|
  {
    seq(|books|, i requires 0 <= i < |books| => WriteFor(outputDir, books[i]))
  }

  /** `exportHighlights`: the selected books are written in list order; the
      first failed write ends the export. `outcomes[i]` is what the writer
      does with the i-th attempt. */
  method ExportHighlights(books: seq<Book>, outputDir: string, outcomes: seq<Outcome>)
    returns (report: Report, attempts: seq<FileWrite>)
    requires |outcomes| >= |Selected(books)|
    ensures report.NothingSelected? <==> Selected(books) == []
    ensures |attempts| <= |Selected(books)|
    ensures attempts == Plan(outputDir, Selected(books))[..|attempts|]
    ensures forall i :: 0 <= i < |attempts| - 1 ==> outcomes[i].Written?
    ensures report.Exported? <==>
      Selected(books) != [] && forall i :: 0 <= i < |Selected(books)| ==> outcomes[i].Written?
    ensures report.Exported? ==>
      && |attempts| == |Selected(books)|
      && report.count == |report.titles|
      && report.titles == Titles(Selected(books))
    ensures report.ExportFailed? ==> attempts != [] && outcomes[|attempts| - 1] == Failed(report.message)
  {
    var selected := Selected(books);
    if |selected| == 0 {
      return NothingSelected, [];
    }
    report, attempts := WriteInOrder(selected, Plan(outputDir, selected), outcomes);
  }

  /** The `for (const book of selectedBooks)` loop, given the write each book
      issues: count the successes, collect the titles, stop at the first
      failure. */
  method WriteInOrder(selected: seq<Book>, plan: seq<FileWrite>, outcomes: seq<Outcome>)
    returns (report: Report, attempts: seq<FileWrite>)
    requires selected != [] && |plan| == |selected| <= |outcomes|
    ensures !report.NothingSelected?
    ensures |attempts| <= |plan| && attempts == plan[..|attempts|]
    ensures forall i :: 0 <= i < |attempts| - 1 ==> outcomes[i].Written?
    ensures report.Exported? <==> forall i :: 0 <= i < |plan| ==> outcomes[i].Written?
    ensures report.Exported? ==>
      && |attempts| == |plan|
      && report.count == |report.titles|
      && report.titles == Titles(selected)
    ensures report.ExportFailed? ==> attempts != [] && outcomes[|attempts| - 1] == Failed(report.message)
  {
    var successCount := 0;
    var exportedTitles := [];
    attempts := [];
    var i := 0;
    while i < |selected|
      invariant 0 <= i <= |selected|
      invariant |attempts| == i && successCount == i
      invariant |exportedTitles| == i
      invariant forall k :: 0 <= k < i ==> exportedTitles[k] == selected[k].title
      invariant attempts == plan[..i]
      invariant forall k :: 0 <= k < i ==> outcomes[k].Written?
    {
      assert plan[..i + 1] == plan[..i] + [plan[i]];
      attempts := attempts + [plan[i]];
      if outcomes[i].Failed? {
        return ExportFailed(outcomes[i].message), attempts;
      }
      successCount := successCount + 1;
      exportedTitles := exportedTitles + [selected[i].title];
      i := i + 1;
    }
    assert exportedTitles == Titles(selected);
    report := Exported(successCount, exportedTitles);
  }
}
