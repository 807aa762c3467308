# Library catalog: a Dafny model

This project models the catalog core of a small Java library-management program:
the `Book` record and the `Library` class of `LibraryManagementSystem.java`.

- The catalog is an insertion-ordered list of books. Each book has a title, author,
  ISBN, publication date, genre and a mutable checked-out flag.
- `addBook` appends a book. `searchBook` filters by keyword and optional genre.
- `checkoutBook` and `returnBook` act on the first book whose title matches ignoring
  case. The result is not found, flag flipped, or a conflict that changes nothing.
- The catalog is saved as one comma-joined line per book:
  `title,author,isbn,yyyy-MM-dd,genre,true|false`.
- Loading empties the catalog and reads the lines back. It skips lines with fewer
  than six fields and stops at the first bad date.

Files, one module each:

- `wrappers.dfy` (`Wrappers`): the `Option` type, used for Java's `null` and failed parses.
- `text.dfy` (`Text`): the `java.lang.String` operations used. These are
  `equalsIgnoreCase` (ASCII), `contains`, `String.join`, and `split` with its removal
  of trailing empty strings.
- `dates.dfy` (`Dates`): calendar dates and the `yyyy-MM-dd` format and parse. This
  includes the SMART resolver's clamping of a day past the end of its month.
- `catalog.dfy` (`Catalog`): the catalog as a value, plus checkout, return and search
  as functions, and their properties.
- `persistence.dfy` (`Persistence`): the save line, the per-line parse, and load as a
  fold over the lines, plus the round-trip, skip, abort and corruption properties.
- `library.dfy` (`LibraryManagement`): the classes `Book` and `Library`.
  - Each `Book` is an object with a mutable flag. The `Library` holds a `seq<Book>`.
  - Each method is proved against the functions of `Catalog` and `Persistence`.
  - `Valid()` says no book object appears twice. `Contents()` gives the books as values.

Two behaviours of the code are worth noting:

- A missing file does not empty the catalog. `books.clear()` runs only after the file
  has been opened (LibraryManagementSystem.java:141-142).
- Dates are not parsed strictly. `DateTimeFormatter.ofPattern` uses the SMART resolver,
  so `2023-02-30` loads as 28 February 2023 rather than failing.

## Model

| member | source | states |
|---|---|---|
| `Text.EqualsIgnoreCaseIsLowerEquality` | LibraryManagementSystem.java:91 | Titles compared with `equalsIgnoreCase` are equal exactly when their lower-cased forms are equal. |
| `Text.EqualsIgnoreCase` | LibraryManagementSystem.java:91 | `equalsIgnoreCase`: the strings have the same length, and their characters are equal up to ASCII case. Its partner is `Text.EqualsIgnoreCaseIsLowerEquality`. |
| `Text.Contains` | LibraryManagementSystem.java:73 | `contains`: the part is a prefix of the string or of one of its suffixes. Its partner is `Text.ContainsIsOccurrence`. |
| `Text.ContainsIsOccurrence` | LibraryManagementSystem.java:73 | `contains(keyword)` holds exactly when the keyword occurs at some position of the title or author. |
| `Text.DropTrailingEmpty` | LibraryManagementSystem.java:146 | Java's `split` removes only trailing empty strings: the result is a prefix, it ends non-empty, and everything dropped is empty. |
| `Text.Join` | LibraryManagementSystem.java:125-132 | `String.join`: the parts with one separator between neighbours. Its inverse is `Text.Split` (see `Text.SplitJoin`). |
| `Text.Split` | LibraryManagementSystem.java:146 | `split`: a line without the separator gives itself, and no resulting part contains the separator. |
| `Text.JoinPieces` | LibraryManagementSystem.java:146 | Cutting a line into its pieces between separators (before `split` drops trailing empty pieces) loses nothing: joining the pieces again gives the line. |
| `Text.PiecesOfJoin` | LibraryManagementSystem.java:125-132 | Separator-free fields joined with commas are exactly the pieces of the line (before `split` drops trailing empty pieces). |
| `Text.SplitJoin` | LibraryManagementSystem.java:146 | `split` of `String.join` gives the fields back when no field has a comma and the last is not empty. |
| `Text.PiecesOfJoinDiverge` | LibraryManagementSystem.java:146 | If field j is the first with a comma, the pieces of the line (before `split` drops trailing empty pieces) outnumber the fields, and piece j differs from field j. |
| `Dates.ValueOfPadded` | LibraryManagementSystem.java:129 | A zero-padded number reads back as the number. |
| `Dates.PaddedOfValue` | LibraryManagementSystem.java:151 | A digit field read as a number and padded to its width gives the field back. |
| `Dates.FormatDate` | LibraryManagementSystem.java:129 | The `yyyy-MM-dd` text of a date: ten characters, dashes at positions 4 and 7, digits everywhere else. |
| `Dates.ParseDate` | LibraryManagementSystem.java:151 | Parsing succeeds exactly when the text has the `dddd-dd-dd` shape, the year is at least 1, the month is 1 to 12 and the day is 1 to 31. A parsed date has the written year and month. Its day is at least 1 and never above the written day (it may be clamped down). |
| `Dates.ParseFormat` | LibraryManagementSystem.java:151 | Every date parses back from its `yyyy-MM-dd` text to itself. |
| `Dates.FormatParse` | LibraryManagementSystem.java:151 | Text that parses is the formatted form of its date exactly when its day was not clamped. |
| `Dates.ClampedDay` | LibraryManagementSystem.java:151 | `2023-02-30` is read as 28 February 2023, not refused. |
| `Dates.RefusedFields` | LibraryManagementSystem.java:151 | Year 0000 and month 13 do not parse. |
| `Catalog.FirstTitleMatch` | LibraryManagementSystem.java:90-91 | Finds the first book whose title matches ignoring case: it matches, no earlier book does, and there is none when nothing matches. |
| `Catalog.Checkout` | LibraryManagementSystem.java:89-103 | `checkoutBook` on the catalog as a value. Its properties are stated by `Catalog.CheckoutFirstMatchOnly` and the lemmas after it. |
| `Catalog.Return` | LibraryManagementSystem.java:105-119 | `returnBook` on the catalog as a value. Its properties are stated by `Catalog.ReturnFirstMatchOnly` and the lemmas after it. |
| `Catalog.CheckoutFirstMatchOnly` | LibraryManagementSystem.java:89-103 | Checkout gives not-found exactly when no title matches. It succeeds exactly when the first match is available. On success the catalog is the old one with exactly that book's flag set to true. Otherwise nothing changes. |
| `Catalog.ReturnFirstMatchOnly` | LibraryManagementSystem.java:105-119 | Return gives not-found exactly when no title matches. It succeeds exactly when the first match is checked out. On success the catalog is the old one with exactly that book's flag set to false. Otherwise nothing changes. |
| `Catalog.FirstMatchIgnoresFlags` | LibraryManagementSystem.java:89-119 | Changing a flag does not move the first title match. |
| `Catalog.CheckoutThenReturn` | LibraryManagementSystem.java:89-119 | A successful checkout then a return of the same title succeeds and restores the catalog exactly. |
| `Catalog.ReturnThenCheckout` | LibraryManagementSystem.java:89-119 | A successful return then a checkout of the same title succeeds and restores the catalog exactly. |
| `Catalog.CheckoutTwiceConflicts` | LibraryManagementSystem.java:92-97 | After a successful checkout, checking out the same title again conflicts and changes nothing. |
| `Catalog.ReturnAvailableIsNoOp` | LibraryManagementSystem.java:105-119 | A return whose first match is not checked out, or that matches nothing, changes nothing and does not succeed. |
| `Catalog.MatchesSearch` | LibraryManagementSystem.java:73-74 | The search filter: the title or author contains the keyword (case-sensitive), and the genre matches ignoring case when one is given. |
| `Catalog.Search` | LibraryManagementSystem.java:72-77 | The books passing the filter, in catalog order. Its properties are stated by `Catalog.SearchMembers` and `Catalog.SearchAppend`. |
| `Catalog.SearchMembers` | LibraryManagementSystem.java:69-77 | A book is in the search result exactly when it is in the catalog and passes the keyword and genre filter; the result is no longer than the catalog. |
| `Catalog.SearchAppend` | LibraryManagementSystem.java:72-77 | Search keeps catalog order: searching `a + b` gives the result for `a` followed by the result for `b`. |
| `Catalog.SearchEmpty` | LibraryManagementSystem.java:79-80 | The result is empty ("no books found") exactly when no book passes the filter. |
| `Catalog.GenreFilterNarrows` | LibraryManagementSystem.java:73-74 | A genre filter only removes books from the keyword-only result. |
| `Catalog.SearchPair` | LibraryManagementSystem.java:72-77 | On a two-book catalog, the result is each book that passes the filter, in order. |
| `Catalog.HobbitSearch` | LibraryManagementSystem.java:69-77 | "Hobbit" finds "The Hobbit" by J.R.R. Tolkien. The filter "fantasy" drops a matching non-fantasy book. |
| `Persistence.FormatFlag` | LibraryManagementSystem.java:131 | `Boolean.toString`. Its inverse is `ParseFlag` (see `Persistence.FlagRoundTrip`). |
| `Persistence.ParseFlag` | LibraryManagementSystem.java:153 | `Boolean.parseBoolean`. Its full characterisation is `Persistence.FlagIgnoresCase`. |
| `Persistence.SaveLine` | LibraryManagementSystem.java:125-132 | `String.join` of the six saved fields in file order. Its split-back property is `Persistence.SaveLineSplits`. |
| `Persistence.SaveLineSplits` | LibraryManagementSystem.java:125-146 | When no text field has a comma, `split` of the saved line gives back exactly its six fields. |
| `Persistence.SaveLines` | LibraryManagementSystem.java:124-132 | Saving writes one line per book, in catalog order, each the six fields joined by commas. |
| `Persistence.FlagRoundTrip` | LibraryManagementSystem.java:153 | The flag written as "true"/"false" reads back as itself. |
| `Persistence.FlagIgnoresCase` | LibraryManagementSystem.java:153 | For every field, `parseBoolean` gives true exactly when the field lower-cases to "true"; anything else reads as false. |
| `Persistence.FlagExamples` | LibraryManagementSystem.java:153 | Examples: "TRUE" and "True" read as true; "yes" and the empty field read as false. |
| `Persistence.ParseFields` | LibraryManagementSystem.java:148-156 | A line that reaches the parse is never skipped. It fails exactly when the fourth part is not a date. A parsed book keeps the title, author, ISBN and genre verbatim. Its date is the parse of the fourth part, and its flag is `parseBoolean` of the sixth. |
| `Persistence.ParseLine` | LibraryManagementSystem.java:145-156 | A line without a comma is skipped. A loaded book never has a comma in a text field. |
| `Persistence.Step` | LibraryManagementSystem.java:144-157 | One loop iteration appends at most one book and removes none. After a bad date it changes nothing. It stops the load exactly when the line has a bad date. |
| `Persistence.Load` | LibraryManagementSystem.java:141-157 | The load starts from an empty catalog and yields at most one book per line. |
| `Persistence.SaveFieldsFree` | LibraryManagementSystem.java:125-132 | For a comma-free book, no saved field contains a comma and the flag field is never empty. |
| `Persistence.LineRoundTrip` | LibraryManagementSystem.java:125-156 | A book with no comma in its fields loads back unchanged from its saved line, all six fields and the flag. |
| `Persistence.LoadFrom` | LibraryManagementSystem.java:144-157 | The books before the loop stay, in order, at the front, so no book is ever removed. Each line adds at most one book. |
| `Persistence.LoadFromAppend` | LibraryManagementSystem.java:144-157 | Loading `a + b` is loading `a` and then continuing with `b`. |
| `Persistence.AbortedStays` | LibraryManagementSystem.java:151-162 | After a date failure, no later line has any effect. |
| `Persistence.LoadSnoc` | LibraryManagementSystem.java:144-157 | Loading one more line is one more step of the loop. |
| `Persistence.StepParsed` | LibraryManagementSystem.java:148-156 | A line that parses to a book appends exactly that book, unless a bad date has already stopped the load. |
| `Persistence.SaveLoadRoundTrip` | LibraryManagementSystem.java:121-157 | If no book has a comma in a text field, saving and loading gives back the same books and reports no failure. |
| `Persistence.SkipShortLine` | LibraryManagementSystem.java:147 | A line with fewer than six fields is skipped. Lines before and after it load as if it were absent. |
| `Persistence.BadDateStopsLoad` | LibraryManagementSystem.java:151-162 | A bad date stops the load, and the load is not atomic. The books of earlier lines stay, and later lines are not read. |
| `Persistence.LoadOnlyAppends` | LibraryManagementSystem.java:142-157 | Books loaded from a prefix of the file stay, unchanged, at the front of the final catalog. |
| `Persistence.DropKeepsNonEmpty` | LibraryManagementSystem.java:146-147 | Removing trailing empty strings never cuts into a non-empty field: the parts up to it are kept. |
| `Persistence.LongLineUsesFirstSix` | LibraryManagementSystem.java:146-153 | A line of more than six comma-free fields, with some field from the sixth on not empty, is not skipped, and only its first six fields are used. |
| `Persistence.LateFieldLineKept` | LibraryManagementSystem.java:146-153 | `t,a,i,2023-01-01,g,,x` is not skipped: it is read from its first six fields, with the empty sixth field as the flag. |
| `Persistence.TrailingEmptyFieldsSkipped` | LibraryManagementSystem.java:146-147 | Up to five comma-free fields followed by any number of empty fields make a line that is skipped: `split` drops the trailing empty fields, so fewer than six parts remain. |
| `Persistence.EmptyFlagLineSkipped` | LibraryManagementSystem.java:146-147 | `t,a,i,2023-01-01,g,,,` has eight comma-separated fields, yet it is skipped. |
| `Persistence.CommaCorruptsLine` | LibraryManagementSystem.java:125-153 | A book with a comma in a text field does not load back from its own line, since a loaded book never has a comma in a text field. |
| `Persistence.StepKeepsMismatch` | LibraryManagementSystem.java:144-157 | One more line cannot turn a wrong partial load into the saved catalog. |
| `Persistence.CommaCorruptsCatalog` | LibraryManagementSystem.java:121-157 | A catalog with a comma in any text field does not survive save then load. |
| `Persistence.SaveLoadExactlyWhenCommaFree` | LibraryManagementSystem.java:121-157 | Save then load gives back the catalog exactly when no text field contains a comma. |
| `LibraryManagement.Book.constructor` | LibraryManagementSystem.java:14-21 | A new book has the given fields and is not checked out. |
| `LibraryManagement.Book.SetCheckedOut` | LibraryManagementSystem.java:35-37 | Sets the flag and leaves the other fields unchanged. |
| `LibraryManagement.Library.constructor` | LibraryManagementSystem.java:60-62 | A new library has no books. |
| `LibraryManagement.Library.AddBook` | LibraryManagementSystem.java:64-67 | Appends one new, available book and leaves earlier books unchanged. There is no duplicate check. |
| `LibraryManagement.Library.SearchBook` | LibraryManagementSystem.java:69-77 | Its loop computes exactly `Search` of the current catalog, and the catalog is not changed. |
| `LibraryManagement.Library.CheckoutBook` | LibraryManagementSystem.java:89-103 | Its outcome and new catalog are those of `Checkout` on the old catalog. The book objects stay the same. |
| `LibraryManagement.Library.ReturnBook` | LibraryManagementSystem.java:105-119 | Its outcome and new catalog are those of `Return` on the old catalog. |
| `LibraryManagement.Library.SaveBooksToFile` | LibraryManagementSystem.java:121-133 | Its loop produces exactly `SaveLines` of the current catalog. |
| `LibraryManagement.Library.LoadLine` | LibraryManagementSystem.java:145-156 | One pass of the load loop: the new catalog and the failure report are those of `Step` on the old catalog. |
| `LibraryManagement.Library.LoadBooksFromFile` | LibraryManagementSystem.java:140-163 | A missing file reports not found and leaves the catalog alone. Otherwise the catalog becomes `Load(lines).books`, and failure is reported exactly when a date stopped the load. |
| `LibraryManagement.DuneSession` | LibraryManagementSystem.java:89-119 | Adding "Dune" then checking out twice and returning twice gives success, conflict, success, conflict. |

## Left out

- Console plumbing is not modelled: the `main` menu loop, the prompts and the printed
  messages (LibraryManagementSystem.java:167-243). Checkout and return give their
  three outcomes as an `Outcome` value instead.
- Save is not modelled as file writing. `SaveBooksToFile` returns the lines that
  `PrintWriter` would write. The `IOException` report on save is not modelled.
- Load is not modelled as file reading. The file is a parameter: `None` when it does
  not exist, otherwise its lines. `Scanner`'s splitting of a file into lines is not
  modelled. So a field containing a line break also breaks the round trip at the
  file level, which the model does not show.
- `Book.toString` is display-only and is not modelled.
- The unhandled date exception on the interactive add path is not modelled
  (LibraryManagementSystem.java:201).
- `Library.SearchBook`: Java collects references to the `Book` objects and prints
  them. The model returns their values instead.
- `Text.EqualsIgnoreCase`: case folding is ASCII only. Java also folds non-ASCII letters.
- `Dates.ParseDate`: dates are limited to years 1 to 9999, and exactly four year digits
  are accepted. Java's `yyyy` also reads and writes longer years, with a `+` sign.
- `Persistence.SaveLoadExactlyWhenCommaFree`: holds only for years 1 to 9999, the range
  of `Date`. In Java, `addBook` takes any `LocalDate`, and the interactive parse at
  LibraryManagementSystem.java:201 reads `0000-06-15` as year 0. Pattern `yyyy` writes
  the year of era, so year 0 is saved as `0001-06-15` and loads back as year 1. A
  comma-free book dated in year 0 or earlier therefore does not survive save then load.
  The model does not show this.
- `Library.Valid`: the model assumes no book object is in the list twice. This holds
  because every book is created by the library itself.
- The general `catch (Exception e)` in load is not modelled. In the per-line loop,
  only the date parse can throw.

