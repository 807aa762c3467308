/**
 * The catalog as a value: an insertion-ordered sequence of book records, and what
 * checking out, returning and searching do to it. Titles identify books for checkout
 * and return, compared ignoring case, and only the first book with a matching title
 * is ever considered.
 */
module Catalog {
  import opened Wrappers
  import opened Text
  import opened Dates

  /** One book as the catalog holds it: five identity fields and the checkout flag. */
  datatype BookRecord = BookRecord(
    title: string,
    author: string,
    isbn: string,
    publicationDate: Date,
    genre: string,
    checkedOut: bool)

  /** The three results of a checkout or a return. */
  datatype Outcome =
    | NotFound   // no book has the title
    | Success    // the flag of the first book with the title was flipped
    | Conflict   // that book was already checked out (checkout) or not checked out (return)

  /** The outcome of an operation and the catalog after it. */
  datatype Transition = Transition(outcome: Outcome, books: seq<BookRecord>)

  predicate TitleMatches(b: BookRecord, title: string)
  {
    EqualsIgnoreCase(b.title, title)
  }

  /** The position of the first book whose title equals `title` ignoring case. */
  function FirstTitleMatch(books: seq<BookRecord>, title: string): (r: Option<nat>)
    ensures r.Some? ==> r.value < |books| && TitleMatches(books[r.value], title)
    ensures r.Some? ==> forall j :: 0 <= j < r.value ==> !TitleMatches(books[j], title)
    ensures r.None? ==> forall j :: 0 <= j < |books| ==> !TitleMatches(books[j], title)
  {
    if books == [] then None
    else if TitleMatches(books[0], title) then Some(0)
    else
      match FirstTitleMatch(books[1..], title)
      case None => None
      case Some(k) => Some(k + 1)
  }

  /** `checkoutBook(title)` on the catalog `books`. */
  function Checkout(books: seq<BookRecord>, title: string): Transition
  {
    match FirstTitleMatch(books, title)
    case None => Transition(NotFound, books)
    case Some(k) =>
      if books[k].checkedOut then Transition(Conflict, books)
      else Transition(Success, books[k := books[k].(checkedOut := true)])
  }

  /** `returnBook(title)` on the catalog `books`. */
  function Return(books: seq<BookRecord>, title: string): Transition
  {
    match FirstTitleMatch(books, title)
    case None => Transition(NotFound, books)
    case Some(k) =>
      if !books[k].checkedOut then Transition(Conflict, books)
      else Transition(Success, books[k := books[k].(checkedOut := false)])
  }

  /**
   * Checkout reports not-found exactly when no title matches; it succeeds exactly when
   * the first matching book is available, and then only that book's flag changes, to true;
   * on every other outcome the catalog is unchanged.
   */
  lemma CheckoutFirstMatchOnly(books: seq<BookRecord>, title: string)
    ensures var t := Checkout(books, title);
      && |t.books| == |books|
      && (t.outcome == NotFound <==> forall j :: 0 <= j < |books| ==> !TitleMatches(books[j], title))
      && (t.outcome != Success ==> t.books == books)
      && (t.outcome == Success <==>
            exists k :: 0 <= k < |books| && TitleMatches(books[k], title) && !books[k].checkedOut &&
              (forall j :: 0 <= j < k ==> !TitleMatches(books[j], title)))
      && (forall j :: 0 <= j < |books| && t.books[j] != books[j] ==>
            t.outcome == Success && FirstTitleMatch(books, title) == Some(j) &&
            t.books[j] == books[j].(checkedOut := true))
      && (t.outcome == Success ==>
            FirstTitleMatch(books, title).Some? &&
            var k := FirstTitleMatch(books, title).value;
            t.books == books[k := books[k].(checkedOut := true)])
  {
    match FirstTitleMatch(books, title)
    case None =>
    case Some(k) =>
      if !books[k].checkedOut {
        assert TitleMatches(books[k], title);
      }
  }

  /** The mirror image of `CheckoutFirstMatchOnly` for returning a book. */
  lemma ReturnFirstMatchOnly(books: seq<BookRecord>, title: string)
    ensures var t := Return(books, title);
      && |t.books| == |books|
      && (t.outcome == NotFound <==> forall j :: 0 <= j < |books| ==> !TitleMatches(books[j], title))
      && (t.outcome != Success ==> t.books == books)
      && (t.outcome == Success <==>
            exists k :: 0 <= k < |books| && TitleMatches(books[k], title) && books[k].checkedOut &&
              (forall j :: 0 <= j < k ==> !TitleMatches(books[j], title)))
      && (forall j :: 0 <= j < |books| && t.books[j] != books[j] ==>
            t.outcome == Success && FirstTitleMatch(books, title) == Some(j) &&
            t.books[j] == books[j].(checkedOut := false))
      && (t.outcome == Success ==>
            FirstTitleMatch(books, title).Some? &&
            var k := FirstTitleMatch(books, title).value;
            t.books == books[k := books[k].(checkedOut := false)])
  {
    match FirstTitleMatch(books, title)
    case None =>
    case Some(k) =>
      if books[k].checkedOut {
        assert TitleMatches(books[k], title);
      }
  }

  /** Flipping a flag leaves the titles, and so the first match, where they were. */
  lemma FirstMatchIgnoresFlags(books: seq<BookRecord>, k: nat, flag: bool, title: string)
    requires k < |books|
    ensures FirstTitleMatch(books[k := books[k].(checkedOut := flag)], title) == FirstTitleMatch(books, title)
  {
    var books' := books[k := books[k].(checkedOut := flag)];
    var a, b := FirstTitleMatch(books', title), FirstTitleMatch(books, title);
    assert forall j :: 0 <= j < |books| ==> (TitleMatches(books'[j], title) <==> TitleMatches(books[j], title));
    if a.Some? && b.Some? {
      assert !(a.value < b.value) && !(b.value < a.value);
    }
  }

  /** A successful checkout followed by a return of the same title restores the catalog. */
  lemma CheckoutThenReturn(books: seq<BookRecord>, title: string)
    requires Checkout(books, title).outcome == Success
    ensures Return(Checkout(books, title).books, title) == Transition(Success, books)
  {
    var k := FirstTitleMatch(books, title).value;
    FirstMatchIgnoresFlags(books, k, true, title);
    var books' := books[k := books[k].(checkedOut := true)];
    assert books'[k := books'[k].(checkedOut := false)] == books;
  }

  /** A successful return followed by a checkout of the same title restores the catalog. */
  lemma ReturnThenCheckout(books: seq<BookRecord>, title: string)
    requires Return(books, title).outcome == Success
    ensures Checkout(Return(books, title).books, title) == Transition(Success, books)
  {
    var k := FirstTitleMatch(books, title).value;
    FirstMatchIgnoresFlags(books, k, false, title);
    var books' := books[k := books[k].(checkedOut := false)];
    assert books'[k := books'[k].(checkedOut := true)] == books;
  }

  /** A book cannot be checked out twice in a row: the second checkout conflicts and changes nothing. */
  lemma CheckoutTwiceConflicts(books: seq<BookRecord>, title: string)
    requires Checkout(books, title).outcome == Success
    ensures var after := Checkout(books, title).books;
      Checkout(after, title) == Transition(Conflict, after)
  {
    var k := FirstTitleMatch(books, title).value;
    FirstMatchIgnoresFlags(books, k, true, title);
  }

  /** A return whose first matching book is not checked out, or that matches nothing, is a no-op. */
  lemma ReturnAvailableIsNoOp(books: seq<BookRecord>, title: string)
    requires FirstTitleMatch(books, title).None? || !books[FirstTitleMatch(books, title).value].checkedOut
    ensures Return(books, title).books == books && Return(books, title).outcome != Success
  {
  }

  /**
   * The search filter: the title or the author contains the keyword (case-sensitive), and
   * when a genre is given the book's genre equals it ignoring case.
   */
  predicate MatchesSearch(b: BookRecord, keyword: string, genre: Option<string>)
  {
    (Contains(b.title, keyword) || Contains(b.author, keyword)) &&
    (genre.None? || EqualsIgnoreCase(b.genre, genre.value))
  }

  /** The books `searchBook(keyword, genre)` lists, in catalog order. */
  function Search(books: seq<BookRecord>, keyword: string, genre: Option<string>): seq<BookRecord>
  {
    if books == [] then []
    else
      var rest := Search(books[..|books| - 1], keyword, genre);
      var last := books[|books| - 1];
      if MatchesSearch(last, keyword, genre) then rest + [last] else rest
  }

  /** A book is listed exactly when it is in the catalog and passes the filter. */
  lemma {:induction false} SearchMembers(books: seq<BookRecord>, keyword: string, genre: Option<string>)
    ensures |Search(books, keyword, genre)| <= |books|
    ensures forall b :: b in Search(books, keyword, genre) <==> b in books && MatchesSearch(b, keyword, genre)
  {
    if books != [] {
      var init, last := books[..|books| - 1], books[|books| - 1];
      SearchMembers(init, keyword, genre);
      assert books == init + [last];
    }
  }

  /**
   * Search keeps catalog order: the result for two catalogs one after the other is the
   * result for the first followed by the result for the second.
   */
  lemma {:induction false} SearchAppend(a: seq<BookRecord>, b: seq<BookRecord>, keyword: string, genre: Option<string>)
    ensures Search(a + b, keyword, genre) == Search(a, keyword, genre) + Search(b, keyword, genre)
  {
    if b == [] {
      assert a + b == a;
    } else {
      var init, last := b[..|b| - 1], b[|b| - 1];
      var ab := a + b;
      assert ab[..|ab| - 1] == a + init;
      assert ab[|ab| - 1] == last;
      SearchAppend(a, init, keyword, genre);
      var left := Search(a + init, keyword, genre);
      assert Search(ab, keyword, genre) == if MatchesSearch(last, keyword, genre) then left + [last] else left;
      assert Search(b, keyword, genre) ==
        if MatchesSearch(last, keyword, genre) then Search(init, keyword, genre) + [last] else Search(init, keyword, genre);
    }
  }

  /** The search result is empty ("no books found") exactly when no book passes the filter. */
  lemma SearchEmpty(books: seq<BookRecord>, keyword: string, genre: Option<string>)
    ensures Search(books, keyword, genre) == [] <==>
      forall j :: 0 <= j < |books| ==> !MatchesSearch(books[j], keyword, genre)
  {
    SearchMembers(books, keyword, genre);
    var r := Search(books, keyword, genre);
    if r != [] {
      assert r[0] in r;
    }
    if exists j :: 0 <= j < |books| && MatchesSearch(books[j], keyword, genre) {
      var j :| 0 <= j < |books| && MatchesSearch(books[j], keyword, genre);
      assert books[j] in books;
    }
  }

  /** A genre filter only narrows the result of the same keyword search without one. */
  lemma GenreFilterNarrows(books: seq<BookRecord>, keyword: string, genre: string)
    ensures forall b :: b in Search(books, keyword, Some(genre)) ==> b in Search(books, keyword, None)
  {
    SearchMembers(books, keyword, Some(genre));
    SearchMembers(books, keyword, None);
  }

  /** The search result for a two-book catalog. */
  lemma SearchPair(a: BookRecord, b: BookRecord, keyword: string, genre: Option<string>)
    ensures Search([a, b], keyword, genre) ==
      (if MatchesSearch(a, keyword, genre) then [a] else []) + (if MatchesSearch(b, keyword, genre) then [b] else [])
  {
    assert [a, b][..1] == [a] && [a][..0] == [];
    assert Search([a], keyword, genre) == Search([], keyword, genre) + (if MatchesSearch(a, keyword, genre) then [a] else []);
    assert Search([a, b], keyword, genre) == Search([a], keyword, genre) + (if MatchesSearch(b, keyword, genre) then [b] else []);
  }

  /**
   * A keyword search for "Hobbit" finds "The Hobbit" by J.R.R. Tolkien; filtering by the
   * genre "fantasy" (any case) drops a matching book of another genre.
   */
  lemma HobbitSearch()
    ensures var hobbit := BookRecord("The Hobbit", "J.R.R. Tolkien", "9780547928227",
                                     CalendarDate(1937, 9, 21), "Fantasy", false);
            var guide := BookRecord("Hobbit Cookery", "A. Baker", "9780000000001",
                                    CalendarDate(2000, 1, 1), "Reference", false);
            && Search([hobbit, guide], "Hobbit", None) == [hobbit, guide]
            && Search([hobbit, guide], "Hobbit", Some("fantasy")) == [hobbit]
  {
    var hobbit := BookRecord("The Hobbit", "J.R.R. Tolkien", "9780547928227",
                             CalendarDate(1937, 9, 21), "Fantasy", false);
    var guide := BookRecord("Hobbit Cookery", "A. Baker", "9780000000001",
                            CalendarDate(2000, 1, 1), "Reference", false);
    assert Contains(hobbit.title, "Hobbit") by {
      assert OccursAt(hobbit.title, "Hobbit", 4);
      ContainsIsOccurrence(hobbit.title, "Hobbit");
    }
    assert Contains(guide.title, "Hobbit") by {
      assert StartsWith(guide.title, "Hobbit");
    }
    assert EqualsIgnoreCase("Fantasy", "fantasy") by {
      assert CharEqualsIgnoreCase('F', 'f');
    }
    assert !EqualsIgnoreCase("Reference", "fantasy");
    SearchPair(hobbit, guide, "Hobbit", None);
    SearchPair(hobbit, guide, "Hobbit", Some("fantasy"));
  }
}
