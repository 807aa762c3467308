/**
 * The in-memory catalog as the program keeps it: a `Library` object holding a list of
 * `Book` objects whose checkout flags are flipped in place. Each method is proved
 * against the value-level definitions of modules `Catalog` and `Persistence`.
 */
module LibraryManagement {
  import opened Wrappers
  import opened Text
  import opened Dates
  import opened Catalog
  import opened Persistence

  /** A book: the identity fields are fixed when it is built, the checkout flag changes. */
  class Book {
    const title: string
    const author: string
    const isbn: string
    const publicationDate: Date
    const genre: string
    var checkedOut: bool

    /** A new book is not checked out. */
    constructor (title: string, author: string, isbn: string, publicationDate: Date, genre: string)
      ensures Record() == BookRecord(title, author, isbn, publicationDate, genre, false)
    {
      this.title := title;
      this.author := author;
      this.checkedOut := false;
      this.isbn := isbn;
      this.publicationDate := publicationDate;
      this.genre := genre;
    }

    /** The book's current field values. */
    function Record(): BookRecord
      reads this
    {
      BookRecord(title, author, isbn, publicationDate, genre, checkedOut)
    }

    method SetCheckedOut(checkedOut: bool)
      modifies this
      ensures Record() == old(Record()).(checkedOut := checkedOut)
    {
      this.checkedOut := checkedOut;
    }
  }

  /** What `loadBooksFromFile` reports. */
  datatype LoadStatus =
    | Loaded        // every line was read
    | FileNotFound  // the file could not be opened; the catalog was not touched
    | LoadFailed    // a date did not parse; the books of the earlier lines stay

  class Library {
    var books: seq<Book>

    /** No book object is listed twice (every book is created by the catalog itself). */
    ghost predicate Valid()
      reads this
    {
      forall i, j :: 0 <= i < j < |books| ==> books[i] != books[j]
    }

    /** The catalog's books as values, in order. */
    ghost function Contents(): seq<BookRecord>
      reads this, books
    {
      var bs := books;
      seq(|bs|, i requires 0 <= i < |bs| reads bs => bs[i].Record())
    }

    constructor ()
      ensures Valid() && books == []
    {
      books := [];
    }

    /** `addBook`: appends a new, available book; there is no duplicate check. */
    method AddBook(title: string, author: string, isbn: string, publicationDate: Date, genre: string)
      requires Valid()
      modifies this
      ensures Valid()
      ensures Contents() == old(Contents()) + [BookRecord(title, author, isbn, publicationDate, genre, false)]
      ensures forall b :: b in books ==> b in old(books) || fresh(b)
    {
      var book := new Book(title, author, isbn, publicationDate, genre);
      books := books + [book];
    }

    /** `searchBook`: the books passing the filter, in catalog order; the catalog is only read. */
    method SearchBook(keyword: string, genre: Option<string>) returns (results: seq<BookRecord>)
      ensures results == Search(Contents(), keyword, genre)
    {
      results := [];
      var i := 0;
      while i < |books|
        invariant 0 <= i <= |books|
        invariant results == Search(Contents()[..i], keyword, genre)
      {
        var book := books[i];
        if MatchesSearch(book.Record(), keyword, genre) {
          results := results + [book.Record()];
        }
        assert Contents()[..i + 1][..i] == Contents()[..i];
        i := i + 1;
      }
      assert Contents()[..i] == Contents();
    }

    /**
     * `checkoutBook`: the first book whose title equals `title` ignoring case is checked
     * out if it is available; no other book and no other field changes.
     */
    method CheckoutBook(title: string) returns (outcome: Outcome)
      requires Valid()
      modifies set b | b in books
      ensures Valid()
      ensures Transition(outcome, Contents()) == Checkout(old(Contents()), title)
    {
      var i := 0;
      while i < |books|
        invariant 0 <= i <= |books|
        invariant forall j :: 0 <= j < i ==> !TitleMatches(Contents()[j], title)
      {
        if EqualsIgnoreCase(books[i].title, title) {
          assert TitleMatches(Contents()[i], title);
          assert FirstTitleMatch(Contents(), title) == Some(i) by {
            var first := FirstTitleMatch(Contents(), title);
            assert first.Some? && !(first.value < i) && !(i < first.value);
          }
          if !books[i].checkedOut {
            ghost var before := Contents();
            books[i].SetCheckedOut(true);
            assert Contents() == before[i := before[i].(checkedOut := true)];
            outcome := Success;
          } else {
            outcome := Conflict;
          }
          return;
        }
        i := i + 1;
      }
      outcome := NotFound;
    }

    /**
     * `returnBook`: the first book whose title equals `title` ignoring case is returned
     * if it is checked out; no other book and no other field changes.
     */
    method ReturnBook(title: string) returns (outcome: Outcome)
      requires Valid()
      modifies set b | b in books
      ensures Valid()
      ensures Transition(outcome, Contents()) == Return(old(Contents()), title)
    {
      var i := 0;
      while i < |books|
        invariant 0 <= i <= |books|
        invariant forall j :: 0 <= j < i ==> !TitleMatches(Contents()[j], title)
      {
        if EqualsIgnoreCase(books[i].title, title) {
          assert TitleMatches(Contents()[i], title);
          assert FirstTitleMatch(Contents(), title) == Some(i) by {
            var first := FirstTitleMatch(Contents(), title);
            assert first.Some? && !(first.value < i) && !(i < first.value);
          }
          if books[i].checkedOut {
            ghost var before := Contents();
            books[i].SetCheckedOut(false);
            assert Contents() == before[i := before[i].(checkedOut := false)];
            outcome := Success;
          } else {
            outcome := Conflict;
          }
          return;
        }
        i := i + 1;
      }
      outcome := NotFound;
    }

    /** The lines `saveBooksToFile` writes, one per book in catalog order. */
    method SaveBooksToFile() returns (lines: seq<string>)
      ensures lines == SaveLines(Contents())
    {
      lines := [];
      var i := 0;
      while i < |books|
        invariant 0 <= i <= |books|
        invariant lines == SaveLines(Contents()[..i])
      {
        lines := lines + [SaveLine(books[i].Record())];
        assert Contents()[..i + 1][..i] == Contents()[..i];
        i := i + 1;
      }
      assert Contents()[..i] == Contents();
    }

    /**
     * One pass of the load loop: split the line, skip it when it has fewer than six
     * parts, report a bad date, or append the book it describes.
     */
    method LoadLine(line: string) returns (failed: bool)
      requires Valid()
      modifies this
      ensures Valid()
      ensures Step(LoadResult(old(Contents()), false), line) == LoadResult(Contents(), failed)
    {
      failed := false;
      var parts := Split(line, Separator);
      if |parts| >= 6 {
        var date := ParseDate(parts[3]);
        if date.None? {
          assert ParseLine(line) == BadDate;
          failed := true;
        } else {
          var book := new Book(parts[0], parts[1], parts[2], date.value, parts[4]);
          book.SetCheckedOut(ParseFlag(parts[5]));
          assert ParseLine(line) == Parsed(book.Record());
          books := books + [book];
        }
      } else {
        assert ParseLine(line) == Skipped;
      }
    }

    /**
     * `loadBooksFromFile`, with the file given as its lines (`None` when it does not
     * exist). A missing file leaves the catalog alone; otherwise the catalog is emptied
     * and the lines are loaded in order until the first bad date.
     */
    method LoadBooksFromFile(file: Option<seq<string>>) returns (status: LoadStatus)
      requires Valid()
      modifies this
      ensures Valid()
      ensures file.None? ==> status == FileNotFound && Contents() == old(Contents())
      ensures file.Some? ==> Contents() == Load(file.value).books
      ensures file.Some? ==> (status == LoadFailed <==> Load(file.value).aborted)
      ensures file.Some? ==> status != FileNotFound
    {
      if file.None? {
        return FileNotFound;
      }
      var lines := file.value;
      books := [];
      status := Loaded;
      var i := 0;
      while i < |lines| && status == Loaded
        invariant 0 <= i <= |lines|
        invariant Valid()
        invariant status == Loaded || status == LoadFailed
        invariant Contents() == Load(lines[..i]).books
        invariant status == LoadFailed <==> Load(lines[..i]).aborted
      {
        LoadSnoc(lines[..i], lines[i]);
        assert lines[..i + 1] == lines[..i] + [lines[i]];
        var failed := LoadLine(lines[i]);
        if failed {
          status := LoadFailed;
        }
        i := i + 1;
      }
      if status == LoadFailed {
        assert lines[..i] + lines[i..] == lines;
        LoadFromAppend(LoadResult([], false), lines[..i], lines[i..]);
        AbortedStays(Load(lines[..i]), lines[i..]);
      } else {
        assert lines[..i] == lines;
      }
    }
  }

  /**
   * One session on a fresh catalog: add "Dune", check it out twice, return it twice.
   * The outcomes are success, already checked out, success, not checked out.
   */
  method DuneSession() returns (outcomes: seq<Outcome>)
    ensures outcomes == [Success, Conflict, Success, Conflict]
  {
    var library := new Library();
    library.AddBook("Dune", "Frank Herbert", "9780441013593", CalendarDate(1965, 8, 1), "Sci-Fi");
    assert forall b :: b in library.books ==> fresh(b);
    var first := library.CheckoutBook("Dune");
    var second := library.CheckoutBook("Dune");
    var third := library.ReturnBook("Dune");
    var fourth := library.ReturnBook("Dune");
    outcomes := [first, second, third, fourth];
  }
}
