# Kindle clippings exporter — a verified model of its core

The exporter reads a Kindle `My Clippings.txt` file, groups its clippings by
book, lets the user tick books, and writes one Markdown file per ticked book.
This project models the logic behind that in Dafny and proves properties of it:

- **the parser** (`parseClippings`, module `Clippings`): the file is split on
  the literal string `==========` wherever it occurs, even inside a line.
  Each chunk is trimmed, split into lines and classified by its line count:
  - chunks of fewer than two lines are skipped;
  - two-line chunks only create their book;
  - longer chunks also record a quote.

  The books are collected in the order their titles are first met. They are
  then sorted by a stable sort, most recent first (module `RecencySort`). The
  model gives an independent, chunk-by-chunk description of every book
  (`BookFor`) and proves the parser builds exactly those books.
- **the export** (`exportHighlights`, module `Export`):
  - the file-name sanitiser;
  - the Markdown document of a book;
  - the sequential write loop, which stops at the first failed write. The
    file writer is replaced by a sequence of outcomes, one per attempted
    write.
- **the selection state** (module `Selection`): "Select all", "Deselect all",
  the per-book checkbox, and the rule that enables the export button.
- **the path fallbacks** of `src/tauri-api.js` (module `Paths`). `joinPaths`
  joins its arguments with `/` and squeezes slash runs. `getBasename` keeps
  what follows the last `/`.
- **string primitives** (module `Text`): JavaScript `trim` and `\s`, `split`
  and `join` on a literal separator, and the "replace every run of a class by
  one character" rewrite used by both the sanitiser and `joinPaths`.

The file name of an exported book is proved to be the sanitised title plus
`.md`, whatever the output directory (`Export.ExportPath`). Titles that differ
only where both hold a forbidden character get the same file name
(`Export.SanitizeCollides`); `A:B` and `A?B` both become `A_B`
(`Export.SanitizeCollision`). The loop then hands `writeTextFile` the same path
twice, so in the source the later book's file takes the earlier one's place.
The model has no file system and states only the shared path.

In `parseClippings` (src/main.js:178-189) only chunks of three lines or more
move `latestPosition`; a two-line chunk only creates its book. A chunk whose
quote is blank is trimmed to its title and metadata lines before it is
counted; when the metadata is blank too it is trimmed to its title alone and
skipped. So a title met only in such chunks keeps the initial `-1` and has no highlights
(`Clippings.TitleOnlyBooks`). The `if (title)` and `if (content)` guards are
kept as written, and `Clippings.ParseEntry` shows that they never reject.

## Model

| member | source | states |
|---|---|---|
| Text.Trim | src/main.js:167 | `trim()` leaves no white space at either end; the result is empty exactly when the text is all white space; an already trimmed text is unchanged |
| Text.TrimKeeps | src/main.js:167 | trimming removes only white space: the other characters survive, in order |
| Text.StripAround | src/main.js:167 | `trim` works at the ends only: whatever lies between a non-white-space first part and a non-white-space last part is kept whole |
| Text.Split | src/main.js:160 | `split` on a literal separator: at least one piece, the pieces joined with the separator give the text back, no piece contains the separator, and every cut is at the leftmost occurrence of the separator in what remains |
| Text.SplitUnique | src/main.js:160 | the pieces are determined by the text: separator-free pieces, each cut at the leftmost occurrence, are exactly what splitting their join returns |
| Text.JoinAppend | src/main.js:180 | `join` of two lists of pieces is the join of each with one separator between them |
| Text.SplitJoin | src/main.js:167 | splitting on one character undoes joining pieces that do not contain it |
| Text.CollapseRuns | src/main.js:303 | a global replace of `class+` by one character: nothing longer, the first character kept or replaced, no two class characters side by side (the exact output is fixed by the three lemmas below) |
| Text.CollapseRunsCut | src/main.js:303 | a character outside the class splits the text: each side is rewritten on its own and the character is kept between them |
| Text.CollapseRunsBlank | src/main.js:303 | a non-empty text made only of class characters becomes the single replacement character |
| Text.CollapseRunsAround | src/main.js:303 | every maximal run of class characters, inside the text or at either end, becomes exactly one replacement character, and the text around it is rewritten on its own |
| Text.CollapseRunsKeeps | src/main.js:303 | collapsing removes only class characters: every other character survives, in order |
| Text.CollapseRunsIdempotent | src/main.js:303 | collapsing twice is collapsing once |
| Clippings.ParseEntry | src/main.js:167-181 | a chunk is skipped exactly when its trimmed text has fewer than two lines, title-only exactly when it has two; a kept title is non-empty and trimmed, so `if (title)` never rejects; a quote's metadata is trimmed and its content non-empty and trimmed, so `if (content)` never rejects |
| Clippings.EntryLines | src/main.js:167-181 | the trimmed chunk is a first line, a second line and the rest, separated by line breaks; the title is the first line trimmed, the metadata the second line trimmed, the content the rest trimmed; a chunk is skipped exactly when its trimmed text holds no line break |
| Clippings.SplitExample | src/main.js:160 | eleven `=` in a row end a chunk at the first ten; the eleventh starts the next chunk |
| Clippings.Record | src/main.js:184-197 | a chunk of three lines or more raises the latest position to its index when that is higher, and appends its highlight exactly when the content is non-empty; title and selection are unchanged |
| Clippings.StepTitles | src/main.js:166-176 | one chunk appends its title to the map's titles exactly when it names a title not met before |
| Clippings.BookMap | src/main.js:163-201 | folding the chunks gives at most one book per chunk, with pairwise distinct titles |
| Clippings.ParseClippings | src/main.js:157-215 | at most one book per chunk, pairwise distinct titles, sorted by latest position non-increasing, none selected |
| Clippings.ParseClippingsAgrees | src/main.js:160-215 | the books' titles are exactly the titles the chunks name; every book equals its chunk-by-chunk description; books with equal latest position appear in the order their titles were first met |
| Clippings.BookMapAgrees | src/main.js:163-202 | folding the chunks builds one book per named title, in first-met order, each equal to its description |
| Clippings.LatestQuote | src/main.js:184-189 | a book's latest position is the index of the last chunk of three lines or more with its title, or -1 when there is none |
| Clippings.QuotesFromEntries | src/main.js:178-197 | every highlight of a book comes from a chunk of three lines or more with that title, carrying its metadata, its content and its index |
| Clippings.QuotesComplete | src/main.js:178-197 | every chunk of three lines or more adds its highlight to the book of its title |
| Clippings.QuotesInFileOrder | src/main.js:166-197 | a book's highlights are in strictly increasing file position |
| Clippings.QuotesWithinLatest | src/main.js:174-197 | every highlight position lies between 0 and the book's latest position; a book has no highlight exactly when its latest position is -1 |
| Clippings.TitleOnlyBooks | src/main.js:168-189 | a title named only by two-line chunks still gets a book, with no highlights, latest position -1 and no selection |
| Clippings.ParsedTitles | src/main.js:160-171 | every title in the result is non-empty, trimmed, and the trimmed first line of some chunk of two lines or more |
| Clippings.SortKeepsBooks | src/main.js:206-215 | the sort returns the same books, as many as it was given, and keeps titles distinct |
| RecencySort.SortByRecency | src/main.js:211-214 | the sort is a permutation of its input, ordered by latest position non-increasing |
| RecencySort.SortStable | src/main.js:211-214 | for every position value, the books with that value keep their relative order |
| RecencySort.SortKeepsTieOrder | src/main.js:211-214 | two books with the same latest position come out in the order they went in |
| RecencySort.SortIsTheStableSort | src/main.js:211-214 | any sorted list with the same per-position groups equals the sort's output, so a stable `Array.prototype.sort` with this comparator gives the same order |
| RecencySort.SortExample | src/main.js:206-215 | titles met as A, C, B with latest positions 5, 5, 9 come out as B, A, C |
| Export.Sanitize | src/main.js:301-304 | the file name has no forbidden character, no white space at either end, no two white-space characters in a row and no white space other than a plain space; apart from white space it keeps the title's characters in order, with forbidden ones replaced |
| Export.ReplaceForbidden | src/main.js:302 | the first replace keeps the length, turns every backslash, slash, colon, asterisk, question mark, double quote, angle bracket and vertical bar into `_` and keeps every other character |
| Export.SanitizeAround | src/main.js:301-304 | a run of white space between two other characters becomes exactly one space, and the text on each side is sanitised on its own |
| Export.SanitizeCollides | src/main.js:301-304 | titles that differ only where both hold a forbidden character get the same file name |
| Export.SanitizeFixed | src/main.js:301-304 | sanitising leaves a name unchanged exactly when the name is already clean |
| Export.SanitizeIdempotent | src/main.js:301-304 | sanitising twice is sanitising once |
| Export.SanitizeNonEmpty | src/main.js:301-304 | a title with any non-blank character gets a non-empty file name |
| Export.SanitizeExample | src/main.js:301-304 | `My/Book: Test` becomes `My_Book_ Test` |
| Export.SanitizeCollision | src/main.js:301-315 | the different titles `A:B` and `A?B` share the file name `A_B` |
| Export.BlocksAreConcat | src/main.js:309-312 | the document body is the highlights' blocks, one per highlight, in stored order |
| Export.Document | src/main.js:307-312 | the file is the heading `# ` title and a blank line, then one block per highlight in stored order: `> ` content, a blank line, the metadata between asterisks, a blank line, `---` and a blank line |
| Export.DocumentGrows | src/main.js:309-312 | one more highlight appends its block and changes nothing before it |
| Export.ExportPath | src/main.js:315 | the basename of the written path is the sanitised title plus `.md`, whatever the output directory |
| Export.ExportHighlights | src/main.js:284-321 | nothing is written exactly when no book is selected; otherwise the selected books' writes are attempted in list order and none after the first failure; the export succeeds exactly when every write succeeds, and then the success count equals the number of exported titles, which are the selected titles in order; a failure reports the failed write's message |
| Export.WriteInOrder | src/main.js:299-321 | the write loop: attempts are a prefix of the planned writes, all but the last succeeded, and the count and titles match the books written |
| Selection.Selected | src/main.js:286 | the filter keeps exactly the selected books and nothing else |
| Selection.SelectedAppend | src/main.js:286 | the filter works piece by piece, so it keeps the list order |
| Selection.AnySelected | src/main.js:279 | `some` is true exactly when some book is selected |
| Selection.SelectAll | src/main.js:264-268 | every flag is set and nothing else in the list changes |
| Selection.DeselectAll | src/main.js:271-275 | every flag is cleared and nothing else in the list changes |
| Selection.SetSelected | src/main.js:248-249 | the checkbox sets the flag at its index; every other book and every other field is unchanged |
| Selection.ExportEnabled | src/main.js:278-281 | the export button is enabled exactly when an output directory is set and the filter keeps some book |
| Selection.SelectAllExportsAll | src/main.js:264-275 | after "Select all" the export takes every book in list order; after "Deselect all" it takes none |
| Selection.SelectAllDeselectAll | src/main.js:264-275 | the two buttons undo each other apart from the flags they set |
| Selection.SetSelectedRestores | src/main.js:248-249 | restoring a checkbox's old state gives the original list back |
| Selection.FreshListDisabled | src/main.js:278-281 | a list nobody has ticked, such as the parser's output, is left alone by "Deselect all" and keeps the export button disabled |
| Paths.JoinPaths | src/tauri-api.js:70 | the fallback join never holds two slashes in a row and keeps every non-slash character of the plain join, in order (where the slashes go is fixed by `Paths.CollapseSlashesAround`) |
| Paths.CollapseSlashes | src/tauri-api.js:70 | `replace(/\/+/g, '/')` leaves no two slashes in a row and keeps every other character, in order |
| Paths.CollapseSlashesAround | src/tauri-api.js:70 | every maximal run of slashes becomes exactly one slash, and the text on each side is squeezed on its own |
| Paths.JoinPathsSeam | src/tauri-api.js:70 | a directory ending in `/` joined with a name starting with `/` gives directory, one slash, name |
| Paths.JoinPathsPlain | src/tauri-api.js:70 | when the base has no doubled slash and does not end in one, and every part is non-empty and slash-free, the join is the plain `/`-separated join |
| Paths.JoinPathsAlone | src/tauri-api.js:70 | joining the base with nothing squeezes its slash runs; the base comes back unchanged exactly when it has no doubled slash |
| Paths.CollapseSlashesIdempotent | src/tauri-api.js:70 | squeezing slashes twice is squeezing them once |
| Paths.JoinPathsIdempotent | src/tauri-api.js:70 | joining an already joined path with nothing changes nothing |
| Paths.Basename | src/tauri-api.js:84 | the fallback basename holds no slash; it is the longest slash-free suffix of the path; it is the whole path when there is no slash and empty when the path ends in one |
| Paths.BasenameOfJoin | src/tauri-api.js:64-86 | the basename of a directory joined with a non-empty slash-free name is that name |

## Left out

- DOM and UI code is not modelled: `initApp`, `displayBooks`, `filterBooks`, `showStatus`, the status timers, the progress message, the success text and the `alert` summary. It only presents results.
- The native Tauri calls are not modelled: `dialog.open`, `fs.readTextFile`, `fs.writeTextFile`, `path.join` and `path.basename` are platform code outside the source. Only the fallback branches of `joinPaths` and `getBasename` are modelled, and the file writer becomes the `outcomes` parameter.
- `localStorage` persistence of the output directory is I/O and is not modelled; `async`/`await` scheduling is not modelled either, since the loop awaits each write before the next.
- Console logging and `parseClippings`' own `try`/`catch` are not modelled. Nothing in the modelled code throws on a string input.
- The JavaScript plain object used as the title map is modelled as an insertion-ordered map with exact string keys. `Object.keys` lists integer-like keys such as `"2024"` first, in numeric order. Prototype names such as `constructor` make the lookup truthy and then fail. Neither quirk is modelled.
- A character is a Unicode scalar value, while JavaScript strings are UTF-16 code units. Every white-space and separator character involved is a single code unit, so the operations modelled agree on them.
- Export.ExportHighlights: requires at least one outcome per selected book. This is a property of the modelling parameter, not a restriction of the source.
- Export.ExportHighlights: on failure, the report carries only the error message. The source also drops its success count and title list on that path. The files written before the failure are the attempts other than the last.
