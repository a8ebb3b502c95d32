/**
  The records the exporter works on: a highlight taken from the clippings file
  and a book collecting the highlights that share one title.
 */
module Model {

  /** One quote: the free-form metadata line (page, location, date), the quoted
      text, and the index of the clippings chunk it came from. */
  datatype Highlight = Highlight(metadata: string, content: string, position: int)

  /** A book: its title, its highlights in the order met in the file, the index
      of the latest chunk that recorded a quote for it (-1 when none did), and
      whether the user ticked it for export. */
  datatype Book = Book(title: string, highlights: seq<Highlight>, latestPosition: int, selected: bool)

  /** The titles of `books`, in order. */
  function Titles(books: seq<Book>): seq<string>
  {
    seq(|books|, i requires 0 <= i < |books| => books[i].title)
  }

  /** No two books share a title. */
  predicate DistinctTitles(books: seq<Book>) {
    forall i, j :: 0 <= i < j < |books| ==> books[i].title != books[j].title
  }
}
