/**
 * The `java.lang.String` operations the catalog relies on: `equalsIgnoreCase`,
 * `contains`, `String.join` and `split` on a one-character separator.
 * Strings are sequences of characters; case folding is ASCII only.
 */
module Text {

  /** ASCII lower-casing of one character; every other character is kept. */
  function LowerChar(c: char): char
  {
    if 'A' <= c <= 'Z' then (c as int - 'A' as int + 'a' as int) as char else c
  }

  function ToLower(s: string): string
  {
    seq(|s|, i requires 0 <= i < |s| => LowerChar(s[i]))
  }

  /** Characters compared as `String.regionMatches(true, ...)` does, restricted to ASCII. */
  predicate CharEqualsIgnoreCase(a: char, b: char)
  {
    a == b || LowerChar(a) == LowerChar(b)
  }

  /** `a.equalsIgnoreCase(b)`: same length and equal character by character up to case. */
  predicate EqualsIgnoreCase(a: string, b: string)
  {
    |a| == |b| && forall i :: 0 <= i < |a| ==> CharEqualsIgnoreCase(a[i], b[i])
  }

  /** Comparing ignoring case is comparing the lower-cased strings. */
  lemma EqualsIgnoreCaseIsLowerEquality(a: string, b: string)
    ensures EqualsIgnoreCase(a, b) <==> ToLower(a) == ToLower(b)
  {
    if EqualsIgnoreCase(a, b) {
      forall i | 0 <= i < |a| ensures ToLower(a)[i] == ToLower(b)[i] {
        assert CharEqualsIgnoreCase(a[i], b[i]);
      }
    }
    if ToLower(a) == ToLower(b) {
      assert |a| == |ToLower(a)| == |ToLower(b)| == |b|;
      forall i | 0 <= i < |a| ensures CharEqualsIgnoreCase(a[i], b[i]) {
        assert ToLower(a)[i] == ToLower(b)[i];
      }
    }
  }

  predicate StartsWith(s: string, prefix: string)
  {
    |prefix| <= |s| && s[..|prefix|] == prefix
  }

  /** `s.contains(part)`, searched from the front as `indexOf` does. */
  predicate Contains(s: string, part: string)
    decreases |s|
  {
    StartsWith(s, part) || (|s| > 0 && Contains(s[1..], part))
  }

  /** `part` occurs in `s` starting at position `i`. */
  predicate OccursAt(s: string, part: string, i: int)
  {
    0 <= i <= |s| - |part| && s[i..i + |part|] == part
  }

  /** `part` is contained in `s` exactly when it occurs at some position of `s`. */
  lemma {:induction false} ContainsIsOccurrence(s: string, part: string)
    ensures Contains(s, part) <==> exists i :: OccursAt(s, part, i)
    decreases |s|
  {
    if StartsWith(s, part) {
      assert OccursAt(s, part, 0);
    } else if |s| > 0 {
      ContainsIsOccurrence(s[1..], part);
      if Contains(s[1..], part) {
        var i :| OccursAt(s[1..], part, i);
        assert s[i + 1..i + 1 + |part|] == s[1..][i..i + |part|];
        assert OccursAt(s, part, i + 1);
      } else {
        forall i ensures !OccursAt(s, part, i) {
          if i > 0 && OccursAt(s, part, i) {
            assert i - 1 <= |s[1..]| - |part|;
            forall k | 0 <= k < |part| ensures s[1..][i - 1..i - 1 + |part|][k] == part[k] {
              assert s[i..i + |part|][k] == part[k];
            }
            assert OccursAt(s[1..], part, i - 1);
          }
        }
      }
    }
  }

  /** `String.join(sep, parts)`: the parts with one separator between neighbours. */
  function Join(parts: seq<string>, sep: char): string
  {
    if |parts| == 0 then ""
    else if |parts| == 1 then parts[0]
    else parts[0] + [sep] + Join(parts[1..], sep)
  }

  /**
   * Every piece of `s` between separators, empty pieces included: the result has one
   * more element than `s` has separators.
   */
  function Pieces(s: string, sep: char): (r: seq<string>)
    ensures |r| >= 1
  {
    if s == [] then [""]
    else
      var rest := Pieces(s[1..], sep);
      if s[0] == sep then [""] + rest else [[s[0]] + rest[0]] + rest[1..]
  }

  /** Java's `split` with limit 0 removes the empty strings at the end of the result. */
  function DropTrailingEmpty(parts: seq<string>): (r: seq<string>)
    ensures |r| <= |parts| && r == parts[..|r|]
    ensures r == [] || r[|r| - 1] != ""
    ensures forall i :: |r| <= i < |parts| ==> parts[i] == ""
  {
    if |parts| > 0 && parts[|parts| - 1] == "" then DropTrailingEmpty(parts[..|parts| - 1]) else parts
  }

  /**
   * `s.split(String.valueOf(sep))`: a string with no separator gives itself (even the
   * empty string); otherwise the pieces between separators without the trailing empty ones.
   */
  function Split(s: string, sep: char): (r: seq<string>)
    ensures sep !in s ==> r == [s]
    ensures forall i :: 0 <= i < |r| ==> sep !in r[i]
  {
    if sep !in s then [s]
    else
      PiecesFree(s, sep);
      DropTrailingEmpty(Pieces(s, sep))
  }

  /** No piece of a string cut at the separator contains the separator. */
  lemma {:induction false} PiecesFree(s: string, sep: char)
    ensures forall p :: p in Pieces(s, sep) ==> sep !in p
  {
    if s != [] {
      PiecesFree(s[1..], sep);
    }
  }

  /** Cutting into pieces loses nothing: joining the pieces gives the string back. */
  lemma {:induction false} JoinPieces(s: string, sep: char)
    ensures Join(Pieces(s, sep), sep) == s
  {
    if s != [] {
      var rest := Pieces(s[1..], sep);
      JoinPieces(s[1..], sep);
      if s[0] == sep {
        assert Pieces(s, sep) == [""] + rest;
        assert ([""] + rest)[1..] == rest;
      } else {
        var r := Pieces(s, sep);
        assert r == [[s[0]] + rest[0]] + rest[1..];
        if |rest| == 1 {
          assert r == [[s[0]] + rest[0]];
        } else {
          assert r[1..] == rest[1..];
          assert Join(rest, sep) == rest[0] + [sep] + Join(rest[1..], sep);
        }
      }
    }
  }

  /** A string free of the separator is a single piece. */
  lemma {:induction false} PiecesOfFree(s: string, sep: char)
    requires sep !in s
    ensures Pieces(s, sep) == [s]
  {
    if s != [] {
      assert s[0] in s;
      PiecesOfFree(s[1..], sep);
      assert [s[0]] + s[1..] == s;
    }
  }

  /** The pieces of a string that starts with `c`, from the pieces of the rest. */
  lemma PiecesCons(c: char, t: string, sep: char)
    ensures var rest := Pieces(t, sep);
      Pieces([c] + t, sep) == if c == sep then [""] + rest else [[c] + rest[0]] + rest[1..]
  {
    assert ([c] + t)[1..] == t;
  }

  /** Concatenation is associative (stated generically to keep the proofs that use it cheap). */
  lemma ConcatAssoc<T>(x: seq<T>, y: seq<T>, z: seq<T>)
    ensures (x + y) + z == x + (y + z)
  {
  }

  /** The head and tail of a concatenation whose left part is not empty. */
  lemma HeadTailOfConcat<T>(x: seq<T>, y: seq<T>)
    requires |x| >= 1
    ensures (x + y)[0] == x[0] && (x + y)[1..] == x[1..] + y
  {
  }

  /** One more leading character on the left side keeps the pieces cut at the separator. */
  lemma PiecesAroundStep(c: char, t: string, b: string, sep: char)
    requires Pieces(t + [sep] + b, sep) == Pieces(t, sep) + Pieces(b, sep)
    ensures Pieces([c] + t + [sep] + b, sep) == Pieces([c] + t, sep) + Pieces(b, sep)
  {
    var inner, right := Pieces(t, sep), Pieces(b, sep);
    ConcatAssoc([c], t, [sep]);
    ConcatAssoc([c], t + [sep], b);
    PiecesCons(c, t + [sep] + b, sep);
    PiecesCons(c, t, sep);
    if c == sep {
      ConcatAssoc([""], inner, right);
    } else {
      HeadTailOfConcat(inner, right);
      ConcatAssoc([[c] + inner[0]], inner[1..], right);
    }
  }

  /** Pieces of a string with a separator in it are those of the two sides. */
  lemma {:induction false} PiecesAround(a: string, b: string, sep: char)
    ensures Pieces(a + [sep] + b, sep) == Pieces(a, sep) + Pieces(b, sep)
  {
    if a == [] {
      PiecesCons(sep, b, sep);
      assert a + [sep] + b == [sep] + b;
    } else {
      PiecesAround(a[1..], b, sep);
      PiecesAroundStep(a[0], a[1..], b, sep);
      assert [a[0]] + a[1..] == a;
    }
  }

  /** Cutting the join of separator-free parts into pieces gives the parts back. */
  lemma {:induction false} PiecesOfJoin(parts: seq<string>, sep: char)
    requires |parts| >= 1
    requires forall p :: p in parts ==> sep !in p
    ensures Pieces(Join(parts, sep), sep) == parts
  {
    if |parts| == 1 {
      PiecesOfFree(parts[0], sep);
    } else {
      PiecesOfJoin(parts[1..], sep);
      PiecesAround(parts[0], Join(parts[1..], sep), sep);
      PiecesOfFree(parts[0], sep);
    }
  }

  /**
   * `String.join` then `split` is the identity on separator-free parts whose last part is
   * not empty (the last part guards against Java dropping trailing empty strings).
   */
  lemma SplitJoin(parts: seq<string>, sep: char)
    requires |parts| >= 1 && parts[|parts| - 1] != ""
    requires forall p :: p in parts ==> sep !in p
    ensures Split(Join(parts, sep), sep) == parts
  {
    PiecesOfJoin(parts, sep);
    if |parts| >= 2 {
      assert sep in Join(parts, sep) by {
        assert Join(parts, sep)[|parts[0]|] == sep;
      }
    }
  }

  /** A string with a separator in it is cut into several pieces, the first one shorter than the string. */
  lemma {:induction false} PiecesOfSeparated(s: string, sep: char)
    requires sep in s
    ensures |Pieces(s, sep)| >= 2 && |Pieces(s, sep)[0]| < |s|
  {
    if s[0] != sep {
      PiecesOfSeparated(s[1..], sep);
    }
  }

  /** Joining parts gives at least as many pieces as parts. */
  lemma {:induction false} PiecesOfJoinCount(parts: seq<string>, sep: char)
    requires |parts| >= 1
    ensures |Pieces(Join(parts, sep), sep)| >= |parts|
  {
    if |parts| > 1 {
      PiecesOfJoinCount(parts[1..], sep);
      PiecesAround(parts[0], Join(parts[1..], sep), sep);
    }
  }

  /**
   * When part `j` is the first one containing the separator, cutting the join into pieces
   * (before `split` drops trailing empty ones) gives more pieces than parts, agrees with the parts before `j` and differs at `j`.
   */
  lemma {:induction false} PiecesOfJoinDiverge(parts: seq<string>, j: nat, sep: char)
    requires j < |parts|
    requires forall i :: 0 <= i < j ==> sep !in parts[i]
    requires sep in parts[j]
    ensures var r := Pieces(Join(parts, sep), sep);
      |r| > |parts| && r[..j] == parts[..j] && r[j] != parts[j]
  {
    PiecesOfSeparated(parts[j], sep);
    if |parts| == 1 {
    } else {
      var rest := parts[1..];
      PiecesAround(parts[0], Join(rest, sep), sep);
      if j == 0 {
        PiecesOfJoinCount(rest, sep);
      } else {
        PiecesOfFree(parts[0], sep);
        PiecesOfJoinDiverge(rest, j - 1, sep);
        assert parts[..j] == [parts[0]] + rest[..j - 1];
      }
    }
  }
}
