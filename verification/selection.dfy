/**
  The selection state of the book list: the per-book `selected` flag that the
  checkboxes, "Select all" and "Deselect all" change, and the rule that
  enables the export button.
 */
module Selection {
  import opened Model

  /** `books.filter(book => book.selected)` */
  function Selected(books: seq<Book>): (r: seq<Book>)
    ensures |r| <= |books|
    ensures forall b :: b in r ==> b in books && b.selected
    ensures forall i :: 0 <= i < |books| && books[i].selected ==> books[i] in r
  {
    if books == [] then []
    else (if books[0].selected then [books[0]] else []) + Selected(books[1..])
  }

  /** `books.some(book => book.selected)` */
  function AnySelected(books: seq<Book>): (r: bool)
    ensures r <==> exists i :: 0 <= i < |books| && books[i].selected
  {
    if books == [] then false
    else
      assert forall i :: 0 < i < |books| ==> books[i] == books[1..][i - 1];
      books[0].selected || AnySelected(books[1..])
  }

  /** The same book with its flag set to `on`. */
  function WithFlag(b: Book, on: bool): Book {
    b.(selected := on)
  }

  /** Books that differ at most in their `selected` flags. */
  predicate SameBooks(a: seq<Book>, b: seq<Book>) {
    |a| == |b| && forall i :: 0 <= i < |a| ==> a[i].(selected := false) == b[i].(selected := false)
  }

  /** `selectAllBooks`: every flag set, nothing else touched. */
  function SelectAll(books: seq<Book>): (r: seq<Book>)
    ensures SameBooks(r, books)
    ensures forall i :: 0 <= i < |r| ==> r[i].selected
  {
    seq(|books|, i requires 0 <= i < |books| => WithFlag(books[i], true))
  }

  /** `deselectAllBooks`: every flag cleared, nothing else touched. */
  function DeselectAll(books: seq<Book>): (r: seq<Book>)
    ensures SameBooks(r, books)
    ensures forall i :: 0 <= i < |r| ==> !r[i].selected
  {
    seq(|books|, i requires 0 <= i < |books| => WithFlag(books[i], false))
  }

  /** The checkbox handler `books[index].selected = checkbox.checked`: only the
      flag at `index` changes. */
  function SetSelected(books: seq<Book>, index: nat, checked: bool): (r: seq<Book>)
    requires index < |books|
    ensures SameBooks(r, books)
    ensures r[index].selected == checked
    ensures forall i :: 0 <= i < |r| && i != index ==> r[i] == books[i]
  {
    books[index := WithFlag(books[index], checked)]
  }

  /** `exportBtn.disabled = !outputDir || !hasSelectedBooks`, as "enabled". */
  function ExportEnabled(outputDir: string, books: seq<Book>): (r: bool)
    ensures r <==> outputDir != [] && Selected(books) != []
  {
    SelectedEmpty(books);
    outputDir != [] && AnySelected(books)
  }

  /** The filter works piece by piece, so it keeps the list order. */
  lemma {:induction false} SelectedAppend(a: seq<Book>, b: seq<Book>)
    ensures Selected(a + b) == Selected(a) + Selected(b)
  {
    if a != [] {
      assert (a + b)[0] == a[0] && (a + b)[1..] == a[1..] + b;
      SelectedAppend(a[1..], b);
    } else {
      assert a + b == b;
    }
  }

  /** Some book is selected exactly when the filter keeps one. */
  lemma SelectedEmpty(books: seq<Book>)
    ensures Selected(books) == [] <==> !AnySelected(books)
  {
    var r := Selected(books);
    if r != [] {
      assert r[0] in r;
      var i :| 0 <= i < |books| && books[i] == r[0];
    }
  }

  /** The filter keeps the selected books in list order: it is the list with
      the others removed. */
  lemma {:induction false} SelectedOfAll(books: seq<Book>)
    ensures (forall i :: 0 <= i < |books| ==> books[i].selected) ==> Selected(books) == books
    ensures (forall i :: 0 <= i < |books| ==> !books[i].selected) ==> Selected(books) == []
  {
    if books != [] {
      SelectedOfAll(books[1..]);
      assert books == [books[0]] + books[1..];
    }
  }

  /** After "Select all" every book is exported, in list order; after
      "Deselect all" none is. */
  lemma SelectAllExportsAll(books: seq<Book>)
    ensures Selected(SelectAll(books)) == SelectAll(books)
    ensures Selected(DeselectAll(books)) == []
  {
    SelectedOfAll(SelectAll(books));
    SelectedOfAll(DeselectAll(books));
  }

  /** The two buttons undo each other up to the flags they set. */
  lemma SelectAllDeselectAll(books: seq<Book>)
    ensures DeselectAll(SelectAll(books)) == DeselectAll(books)
    ensures SelectAll(DeselectAll(books)) == SelectAll(books)
  {
  }

  /** Ticking a box and restoring its old state gives the original list back. */
  lemma SetSelectedRestores(books: seq<Book>, index: nat, checked: bool)
    requires index < |books|
    ensures SetSelected(SetSelected(books, index, checked), index, books[index].selected) == books
  {
    assert SetSelected(SetSelected(books, index, checked), index, books[index].selected)[index] == books[index];
  }

  /** A list nobody has ticked yet, such as the parser's output, is left as it
      is by "Deselect all", and the export button stays disabled for it. */
  lemma FreshListDisabled(outputDir: string, books: seq<Book>)
    requires forall i :: 0 <= i < |books| ==> !books[i].selected
    ensures DeselectAll(books) == books
    ensures !ExportEnabled(outputDir, books)
  {
    SelectedOfAll(books);
  }
}
