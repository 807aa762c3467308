/**
 * The flat-file format of the catalog: one line per book,
 * `title,author,isbn,yyyy-MM-dd,genre,true|false`, fields joined by commas with no
 * quoting or escaping. Saving builds the lines; loading parses them one at a time,
 * skipping lines with fewer than six fields and stopping at the first bad date.
 */
module Persistence {
  import opened Wrappers
  import opened Text
  import opened Dates
  import opened Catalog

  const Separator: char := ','

  /** `Boolean.toString(b)`. */
  function FormatFlag(b: bool): string
  {
    if b then "true" else "false"
  }

  /** `Boolean.parseBoolean(s)`: true exactly for "true" in any case. */
  predicate ParseFlag(s: string)
  {
    EqualsIgnoreCase(s, "true")
  }

  /** The six fields of a saved line, in file order. */
  function SaveFields(b: BookRecord): seq<string>
  {
    [b.title, b.author, b.isbn, FormatDate(b.publicationDate), b.genre, FormatFlag(b.checkedOut)]
  }

  /** The line `saveBooksToFile` writes for one book. */
  function SaveLine(b: BookRecord): string
  {
    Join(SaveFields(b), Separator)
  }

  /** The lines `saveBooksToFile` writes for a catalog, one per book in order. */
  function SaveLines(books: seq<BookRecord>): (r: seq<string>)
    ensures |r| == |books|
    ensures forall i :: 0 <= i < |books| ==> r[i] == SaveLine(books[i])
  {
    if books == [] then []
    else SaveLines(books[..|books| - 1]) + [SaveLine(books[|books| - 1])]
  }

  /** What loading makes of one line. */
  datatype LineResult =
    | Skipped                   // fewer than six fields
    | BadDate                   // the fourth field is not a date: the load stops
    | Parsed(book: BookRecord)

  /** A book from the first six fields of a line; any further fields are ignored. */
  function ParseFields(parts: seq<string>): (r: LineResult)
    requires |parts| >= 6
    ensures r != Skipped
    ensures r.BadDate? <==> ParseDate(parts[3]).None?
    ensures r.Parsed? ==> [r.book.title, r.book.author, r.book.isbn] == parts[..3] && r.book.genre == parts[4]
    ensures r.Parsed? ==> ParseDate(parts[3]) == Some(r.book.publicationDate)
    ensures r.Parsed? ==> r.book.checkedOut == ParseFlag(parts[5])
  {
    match ParseDate(parts[3])
    case None => BadDate
    case Some(date) => Parsed(BookRecord(parts[0], parts[1], parts[2], date, parts[4], ParseFlag(parts[5])))
  }

  /**
   * One iteration of the load loop of `loadBooksFromFile`. A line without a comma is
   * skipped, and a loaded book never has a comma in a text field.
   */
  function ParseLine(line: string): (r: LineResult)
    ensures Separator !in line ==> r == Skipped
    ensures r.Parsed? ==> CommaFree(r.book)
  {
    var parts := Split(line, Separator);
    if |parts| < 6 then Skipped else ParseFields(parts)
  }

  /** The books loaded so far and whether a bad date stopped the load. */
  datatype LoadResult = LoadResult(books: seq<BookRecord>, aborted: bool)

  /**
   * The load state after one more line: at most one book is appended and none is
   * removed, and once a bad date has stopped the load nothing changes.
   */
  function Step(r: LoadResult, line: string): (r': LoadResult)
    ensures r.books <= r'.books && |r'.books| <= |r.books| + 1
    ensures r.aborted ==> r' == r
    ensures r'.aborted <==> r.aborted || ParseLine(line).BadDate?
  {
    if r.aborted then r
    else
      match ParseLine(line)
      case Skipped => r
      case BadDate => r.(aborted := true)
      case Parsed(b) => r.(books := r.books + [b])
  }

  /** The load state after the lines in order, starting from `r`. */
  function LoadFrom(r: LoadResult, lines: seq<string>): (r': LoadResult)
    ensures r.books <= r'.books
    ensures |r'.books| <= |r.books| + |lines|
  {
    if lines == [] then r
    else Step(LoadFrom(r, lines[..|lines| - 1]), lines[|lines| - 1])
  }

  /** Loading starts from an empty catalog: whatever was in memory before is discarded. */
  function Load(lines: seq<string>): (r: LoadResult)
    ensures |r.books| <= |lines|
  {
    LoadFrom(LoadResult([], false), lines)
  }

  /** The saved flag reads back as itself. */
  lemma FlagRoundTrip(b: bool)
    ensures ParseFlag(FormatFlag(b)) == b
  {
    if !b {
      assert |FormatFlag(b)| != |"true"|;
    }
  }

  /** A flag field reads as true exactly when it lower-cases to "true"; anything else is false. */
  lemma FlagIgnoresCase(s: string)
    ensures ParseFlag(s) <==> ToLower(s) == "true"
  {
    EqualsIgnoreCaseIsLowerEquality(s, "true");
    assert ToLower("true") == "true";
  }

  /** "TRUE" and "True" read as true; "yes" and the empty field read as false. */
  lemma FlagExamples()
    ensures ParseFlag("TRUE") && ParseFlag("True") && !ParseFlag("yes") && !ParseFlag("")
  {
    assert CharEqualsIgnoreCase('T', 't') && CharEqualsIgnoreCase('R', 'r');
    assert CharEqualsIgnoreCase('U', 'u') && CharEqualsIgnoreCase('E', 'e');
    assert !CharEqualsIgnoreCase('y', 't');
  }

  /** None of the book's text fields contains the separator. */
  predicate CommaFree(b: BookRecord)
  {
    Separator !in b.title && Separator !in b.author && Separator !in b.isbn && Separator !in b.genre
  }

  /** Every saved field of a comma-free book is free of the separator, and the last is not empty. */
  lemma SaveFieldsFree(b: BookRecord)
    requires CommaFree(b)
    ensures forall p :: p in SaveFields(b) ==> Separator !in p
    ensures SaveFields(b)[5] != ""
  {
    var date := FormatDate(b.publicationDate);
    assert Separator !in date by {
      forall i | 0 <= i < |date| ensures date[i] != Separator {
        if i != 4 && i != 7 {
          assert IsDigit(date[i]);
        }
      }
    }
  }

  /** When no text field has a comma, `split` gives back exactly the six saved fields. */
  lemma SaveLineSplits(b: BookRecord)
    requires CommaFree(b)
    ensures Split(SaveLine(b), Separator) == SaveFields(b)
  {
    SaveFieldsFree(b);
    SplitJoin(SaveFields(b), Separator);
  }

  /** A book with no comma in its fields loads back from its saved line unchanged. */
  lemma LineRoundTrip(b: BookRecord)
    requires CommaFree(b)
    ensures ParseLine(SaveLine(b)) == Parsed(b)
  {
    SaveLineSplits(b);
    ParseFormat(b.publicationDate);
    FlagRoundTrip(b.checkedOut);
  }

  /** Loading the lines of `a` and then those of `b` is loading `a + b`. */
  lemma {:induction false} LoadFromAppend(r: LoadResult, a: seq<string>, b: seq<string>)
    ensures LoadFrom(r, a + b) == LoadFrom(LoadFrom(r, a), b)
  {
    if b == [] {
      assert a + b == a;
    } else {
      var init := b[..|b| - 1];
      LoadFromAppend(r, a, init);
      assert (a + b)[..|a + b| - 1] == a + init;
      assert (a + b)[|a + b| - 1] == b[|b| - 1];
    }
  }

  /** Once a bad date stopped the load, later lines change nothing. */
  lemma {:induction false} AbortedStays(r: LoadResult, lines: seq<string>)
    requires r.aborted
    ensures LoadFrom(r, lines) == r
  {
    if lines != [] {
      AbortedStays(r, lines[..|lines| - 1]);
    }
  }

  /** Saving a comma-free catalog and loading the lines gives the catalog back. */
  lemma {:induction false} SaveLoadRoundTrip(books: seq<BookRecord>)
    requires forall b :: b in books ==> CommaFree(b)
    ensures Load(SaveLines(books)) == LoadResult(books, false)
  {
    if books != [] {
      var init, last := books[..|books| - 1], books[|books| - 1];
      assert forall b :: b in init ==> b in books;
      SaveLoadRoundTrip(init);
      assert SaveLines(books) == SaveLines(init) + [SaveLine(last)];
      LoadSnoc(SaveLines(init), SaveLine(last));
      LineRoundTrip(last);
      StepParsed(LoadResult(init, false), SaveLine(last), last);
      assert init + [last] == books;
    }
  }

  /** A line with fewer than six fields is skipped; the lines around it load as if it were absent. */
  lemma SkipShortLine(before: seq<string>, line: string, after: seq<string>)
    requires |Split(line, Separator)| < 6
    ensures Load(before + [line] + after) == Load(before + after)
  {
    var start := LoadResult([], false);
    LoadFromAppend(start, before + [line], after);
    LoadFromAppend(start, before, [line]);
    LoadFromAppend(start, before, after);
    assert (before + [line])[..|before|] == before;
  }

  /**
   * A line whose date does not parse ends the load, which is not atomic: the books of
   * the earlier lines stay loaded and no later line is read.
   */
  lemma BadDateStopsLoad(before: seq<string>, line: string, after: seq<string>)
    requires ParseLine(line) == BadDate
    ensures Load(before + [line] + after) == LoadResult(Load(before).books, true)
  {
    var start := LoadResult([], false);
    LoadFromAppend(start, before + [line], after);
    LoadFromAppend(start, before, [line]);
    assert [line][..0] == [];
    AbortedStays(LoadFrom(start, before + [line]), after);
  }

  /** Reading more lines only appends: the books loaded from a prefix of the file stay first. */
  lemma {:induction false} LoadOnlyAppends(a: seq<string>, b: seq<string>)
    ensures |Load(a).books| <= |Load(a + b).books|
    ensures Load(a + b).books[..|Load(a).books|] == Load(a).books
  {
    if b == [] {
      assert a + b == a;
    } else {
      var init := b[..|b| - 1];
      LoadOnlyAppends(a, init);
      assert (a + b)[..|a + b| - 1] == a + init;
      assert (a + b)[|a + b| - 1] == b[|b| - 1];
      var prev := Load(a + init);
      assert Load(a + b) == Step(prev, b[|b| - 1]);
      assert Load(a + b).books == prev.books || Load(a + b).books == prev.books + [Load(a + b).books[|prev.books|]];
    }
  }

  /** Dropping trailing empty fields never reaches a non-empty field. */
  lemma DropKeepsNonEmpty(parts: seq<string>, k: nat)
    requires k < |parts| && parts[k] != ""
    ensures k < |DropTrailingEmpty(parts)|
    ensures DropTrailingEmpty(parts)[..k + 1] == parts[..k + 1]
  {
  }

  /**
   * A line with more than six fields is not skipped as long as some field from the sixth
   * on is not empty: its first six fields are read and the rest ignored.
   */
  lemma LongLineUsesFirstSix(fields: seq<string>, extra: seq<string>, k: nat)
    requires |fields| == 6 && 5 <= k < |fields + extra| && (fields + extra)[k] != ""
    requires forall p :: p in fields + extra ==> Separator !in p
    ensures ParseLine(Join(fields + extra, Separator)) == ParseFields(fields)
  {
    var all := fields + extra;
    var line := Join(all, Separator);
    PiecesOfJoin(all, Separator);
    assert line[|fields[0]|] == Separator;
    DropKeepsNonEmpty(all, k);
    assert DropTrailingEmpty(all)[..6] == all[..6] == fields;
  }

  /** Removing trailing empty strings removes at least the empty ones appended at the end. */
  lemma DropEmptyTail(fields: seq<string>, empties: seq<string>)
    requires forall i :: 0 <= i < |empties| ==> empties[i] == ""
    ensures |DropTrailingEmpty(fields + empties)| <= |fields|
  {
  }

  /**
   * Up to five fields followed only by empty fields make a line that is skipped:
   * `split` drops the trailing empty strings, so fewer than six parts remain.
   */
  lemma TrailingEmptyFieldsSkipped(fields: seq<string>, empties: seq<string>)
    requires 1 <= |fields| <= 5
    requires forall p :: p in fields ==> Separator !in p
    requires forall p :: p in empties ==> p == ""
    ensures ParseLine(Join(fields + empties, Separator)) == Skipped
  {
    var all := fields + empties;
    var line := Join(all, Separator);
    if Separator in line {
      assert forall p :: p in all ==> Separator !in p by {
        forall p | p in all ensures Separator !in p {
          if p !in fields {
            assert p in empties;
          }
        }
      }
      PiecesOfJoin(all, Separator);
      assert forall i :: 0 <= i < |empties| ==> empties[i] in empties;
      DropEmptyTail(fields, empties);
      assert |Split(line, Separator)| < 6;
    }
  }

  /** One field in front of at least one more: the field, a separator, then the rest. */
  lemma JoinCons(first: string, rest: seq<string>, sep: char)
    requires |rest| >= 1
    ensures Join([first] + rest, sep) == first + [sep] + Join(rest, sep)
  {
    assert ([first] + rest)[1..] == rest;
  }

  /** The line of the fields `t`, `a`, `i`, `2023-01-01`, `g` and three empty fields. */
  lemma EmptyFlagLineText()
    ensures Join(["t", "a", "i", "2023-01-01", "g", "", "", ""], Separator) == "t,a,i,2023-01-01,g,,,"
  {
    var e1 := [""];
    var e2 := [""] + e1;
    var e3 := [""] + e2;
    var s4 := ["g"] + e3;
    var s3 := ["2023-01-01"] + s4;
    var s2 := ["i"] + s3;
    var s1 := ["a"] + s2;
    var all := ["t"] + s1;
    JoinCons("", e1, Separator);
    JoinCons("", e2, Separator);
    JoinCons("g", e3, Separator);
    JoinCons("2023-01-01", s4, Separator);
    JoinCons("i", s3, Separator);
    JoinCons("a", s2, Separator);
    JoinCons("t", s1, Separator);
    assert all == ["t", "a", "i", "2023-01-01", "g", "", "", ""];
  }

  /** `t,a,i,2023-01-01,g,,,` has eight comma-separated fields, yet it is skipped. */
  lemma EmptyFlagLineSkipped()
    ensures ParseLine("t,a,i,2023-01-01,g,,,") == Skipped
  {
    var fields, empties := ["t", "a", "i", "2023-01-01", "g"], ["", "", ""];
    TrailingEmptyFieldsSkipped(fields, empties);
    EmptyFlagLineText();
    assert fields + empties == ["t", "a", "i", "2023-01-01", "g", "", "", ""];
  }

  /** The line of the fields `t`, `a`, `i`, `2023-01-01`, `g`, an empty field and `x`. */
  lemma LateFieldLineText()
    ensures Join(["t", "a", "i", "2023-01-01", "g", "", "x"], Separator) == "t,a,i,2023-01-01,g,,x"
  {
    var e1 := ["x"];
    var e2 := [""] + e1;
    var s4 := ["g"] + e2;
    var s3 := ["2023-01-01"] + s4;
    var s2 := ["i"] + s3;
    var s1 := ["a"] + s2;
    var all := ["t"] + s1;
    JoinCons("", e1, Separator);
    JoinCons("g", e2, Separator);
    JoinCons("2023-01-01", s4, Separator);
    JoinCons("i", s3, Separator);
    JoinCons("a", s2, Separator);
    JoinCons("t", s1, Separator);
    assert all == ["t", "a", "i", "2023-01-01", "g", "", "x"];
  }

  /**
   * `t,a,i,2023-01-01,g,,x` is not skipped: its last field keeps the empty sixth field,
   * which becomes the flag (`parseBoolean("")` is false).
   */
  lemma LateFieldLineKept()
    ensures ParseLine("t,a,i,2023-01-01,g,,x") == ParseFields(["t", "a", "i", "2023-01-01", "g", ""])
    ensures ParseLine("t,a,i,2023-01-01,g,,x") != Skipped
  {
    var fields, extra := ["t", "a", "i", "2023-01-01", "g", ""], ["x"];
    LongLineUsesFirstSix(fields, extra, 6);
    LateFieldLineText();
    assert fields + extra == ["t", "a", "i", "2023-01-01", "g", "", "x"];
  }

  /**
   * The format has no quoting: a book with a comma in a text field does not load back
   * from its saved line. `ParseLine` never yields a book with a comma in a text field;
   * `Text.PiecesOfJoinDiverge` shows how the fields shift.
   */
  lemma CommaCorruptsLine(b: BookRecord)
    requires !CommaFree(b)
    ensures ParseLine(SaveLine(b)) != Parsed(b)
  {
  }


  /** A line that parses to a book appends that book, unless the load has stopped. */
  lemma StepParsed(r: LoadResult, line: string, b: BookRecord)
    requires ParseLine(line) == Parsed(b)
    ensures Step(r, line) == if r.aborted then r else r.(books := r.books + [b])
  {
  }

  /** Loading one more line is one more step. */
  lemma LoadSnoc(lines: seq<string>, line: string)
    ensures Load(lines + [line]) == Step(Load(lines), line)
  {
    assert (lines + [line])[..|lines|] == lines;
  }

  /** A step cannot turn a wrong partial load into the right one. */
  lemma StepKeepsMismatch(prev: LoadResult, line: string, init: seq<BookRecord>, last: BookRecord)
    requires prev != LoadResult(init, false) && |prev.books| <= |init|
    ensures Step(prev, line) != LoadResult(init + [last], false)
  {
    if !prev.aborted && ParseLine(line).Parsed? {
      assert Step(prev, line).books[..|prev.books|] == prev.books;
      assert (init + [last])[..|init|] == init;
    }
  }

  /** A catalog with a comma in some text field does not survive save then load. */
  lemma {:induction false} CommaCorruptsCatalog(books: seq<BookRecord>)
    requires exists b :: b in books && !CommaFree(b)
    ensures Load(SaveLines(books)) != LoadResult(books, false)
  {
    var init, last := books[..|books| - 1], books[|books| - 1];
    assert books == init + [last];
    assert SaveLines(books) == SaveLines(init) + [SaveLine(last)];
    LoadSnoc(SaveLines(init), SaveLine(last));
    var prev := Load(SaveLines(init));
    if forall b :: b in init ==> CommaFree(b) {
      SaveLoadRoundTrip(init);
      CommaCorruptsLine(last);
    } else {
      CommaCorruptsCatalog(init);
      StepKeepsMismatch(prev, SaveLine(last), init, last);
    }
  }

  /** Save then load reproduces the catalog exactly when no text field contains a comma. */
  lemma SaveLoadExactlyWhenCommaFree(books: seq<BookRecord>)
    ensures Load(SaveLines(books)) == LoadResult(books, false) <==> forall b :: b in books ==> CommaFree(b)
  {
    if forall b :: b in books ==> CommaFree(b) {
      SaveLoadRoundTrip(books);
    } else {
      CommaCorruptsCatalog(books);
    }
  }
}
