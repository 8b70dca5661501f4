/**
 * Comparison and predicate helpers shared by the games table and its filters
 * (helpers/index.js). Strings are modelled as `seq<char>`, sequences of
 * Unicode scalar values (code points), not of UTF-16 code units.
 */
module Helpers {
  import opened Wrappers

  // ---------------------------------------------------------------------------
  // Lower-casing (`toLowerCaseString`)
  // ---------------------------------------------------------------------------

  predicate IsUpperAscii(c: char) { 'A' <= c <= 'Z' }
  predicate IsLowerAscii(c: char) { 'a' <= c <= 'z' }

  /** `toLowerCase` on one character (code point), restricted to the ASCII letters. */
  function LowerChar(c: char): (r: char)
    ensures !IsUpperAscii(r)
    ensures IsUpperAscii(c) ==> IsLowerAscii(r)
    ensures !IsUpperAscii(c) ==> r == c
  {
    if IsUpperAscii(c) then (c as int + 32) as char else c
  }

  /** `toUpperCase` on one character (code point), restricted to the ASCII letters. */
  function UpperChar(c: char): (r: char)
    ensures !IsLowerAscii(r)
    ensures IsLowerAscii(c) ==> IsUpperAscii(r)
    ensures !IsLowerAscii(c) ==> r == c
  {
    if IsLowerAscii(c) then (c as int - 32) as char else c
  }

  /** `toLowerCaseString(str)`: every letter mapped to its lower case. */
  function ToLowerCaseString(s: string): (r: string)
    ensures |r| == |s|
    ensures forall i :: 0 <= i < |s| ==> r[i] == LowerChar(s[i])
  {
    if s == [] then [] else [LowerChar(s[0])] + ToLowerCaseString(s[1..])
  }

  /** The opposite letter case, used to state case-insensitivity. */
  function ToUpperCaseString(s: string): (r: string)
    ensures |r| == |s|
    ensures forall i :: 0 <= i < |s| ==> r[i] == UpperChar(s[i])
  {
    if s == [] then [] else [UpperChar(s[0])] + ToUpperCaseString(s[1..])
  }

  /** Lower-casing is idempotent and forgets an earlier upper-casing. */
  lemma {:induction false} LowerForgetsCase(s: string)
    ensures ToLowerCaseString(ToLowerCaseString(s)) == ToLowerCaseString(s)
    ensures ToLowerCaseString(ToUpperCaseString(s)) == ToLowerCaseString(s)
  {
    if s != [] {
      LowerForgetsCase(s[1..]);
      assert ToUpperCaseString(s)[1..] == ToUpperCaseString(s[1..]);
      assert ToLowerCaseString(s)[1..] == ToLowerCaseString(s[1..]);
    }
  }

  // ---------------------------------------------------------------------------
  // Substring search (`String.prototype.includes`)
  // ---------------------------------------------------------------------------

  predicate IsPrefix(p: string, s: string) {
    |p| <= |s| && s[..|p|] == p
  }

  /** `hay.includes(needle)`: tries every start position from the left. */
  function Includes(hay: string, needle: string): bool
  {
    IsPrefix(needle, hay) || (|hay| > 0 && Includes(hay[1..], needle))
  }

  /** `needle` occurs in `hay` as a contiguous block starting at `i`. */
  ghost predicate OccursAt(hay: string, needle: string, i: int) {
    0 <= i && i + |needle| <= |hay| && hay[i..i + |needle|] == needle
  }

  /** An occurrence in the tail is an occurrence one place further in the whole. */
  lemma ShiftedOccurrence(hay: string, needle: string, j: nat)
    requires |hay| > 0
    ensures OccursAt(hay[1..], needle, j) <==> OccursAt(hay, needle, j + 1)
  {
    if j + 1 + |needle| <= |hay| {
      assert hay[1..][j..j + |needle|] == hay[j + 1..j + 1 + |needle|];
    }
  }

  /** `Includes` finds exactly the contiguous occurrences. */
  lemma {:induction false} IncludesIffOccurs(hay: string, needle: string)
    ensures Includes(hay, needle) <==> exists i :: OccursAt(hay, needle, i)
  {
    if IsPrefix(needle, hay) {
      assert OccursAt(hay, needle, 0);
    } else if |hay| == 0 {
      assert |needle| > 0;
    } else {
      IncludesIffOccurs(hay[1..], needle);
      if Includes(hay[1..], needle) {
        var j :| OccursAt(hay[1..], needle, j);
        ShiftedOccurrence(hay, needle, j);
      } else {
        forall i | 0 < i ensures !OccursAt(hay, needle, i) {
          ShiftedOccurrence(hay, needle, i - 1);
        }
      }
    }
  }

  /**
   * `caseInsensitiveIncludes(a, b)`: the lower-cased `b` is a contiguous block
   * of the lower-cased `a`. The value under test comes first, the query second.
   */
  function CaseInsensitiveIncludes(a: string, b: string): bool
  {
    Includes(ToLowerCaseString(a), ToLowerCaseString(b))
  }

  /** The answer is "the lower-cased query occurs somewhere in the lower-cased value". */
  lemma CaseInsensitiveIncludesIffOccurs(a: string, b: string)
    ensures CaseInsensitiveIncludes(a, b) <==>
      exists i :: OccursAt(ToLowerCaseString(a), ToLowerCaseString(b), i)
  {
    var la, lb := ToLowerCaseString(a), ToLowerCaseString(b);
    IncludesIffOccurs(la, lb);
    if CaseInsensitiveIncludes(a, b) {
      var i :| OccursAt(la, lb, i);
      assert OccursAt(ToLowerCaseString(a), ToLowerCaseString(b), i);
      assert exists j :: OccursAt(ToLowerCaseString(a), ToLowerCaseString(b), j);
      assert CaseInsensitiveIncludes(a, b);
    } else {
      forall i ensures !OccursAt(ToLowerCaseString(a), ToLowerCaseString(b), i) {
        assert !OccursAt(la, lb, i);
      }
    }
  }

  /** The empty query admits every value, and every value admits itself. */
  lemma EmptyQueryAndSelfMatch(a: string)
    ensures CaseInsensitiveIncludes(a, "")
    ensures CaseInsensitiveIncludes(a, a)
  {
    CaseInsensitiveIncludesIffOccurs(a, "");
    CaseInsensitiveIncludesIffOccurs(a, a);
    assert OccursAt(ToLowerCaseString(a), ToLowerCaseString(""), 0);
    assert OccursAt(ToLowerCaseString(a), ToLowerCaseString(a), 0);
  }

  /** Changing the letter case of either argument never changes the answer. */
  lemma CaseInsensitiveIncludesIgnoresCase(a: string, b: string)
    ensures CaseInsensitiveIncludes(ToUpperCaseString(a), b) == CaseInsensitiveIncludes(a, b)
    ensures CaseInsensitiveIncludes(ToLowerCaseString(a), b) == CaseInsensitiveIncludes(a, b)
    ensures CaseInsensitiveIncludes(a, ToUpperCaseString(b)) == CaseInsensitiveIncludes(a, b)
    ensures CaseInsensitiveIncludes(a, ToLowerCaseString(b)) == CaseInsensitiveIncludes(a, b)
  {
    LowerForgetsCase(a);
    LowerForgetsCase(b);
  }

  // ---------------------------------------------------------------------------
  // Alphabetical comparison (`compareAlphabetically`)
  // ---------------------------------------------------------------------------

  /**
   * `a.toString().localeCompare(b.toString())`, with collation replaced by the
   * code-point order: negative, zero or positive as `a` sorts before, equal to
   * or after `b`.
   */
  function CompareAlphabetically(a: string, b: string): (r: int)
    ensures r == -1 || r == 0 || r == 1
  {
    if a == [] && b == [] then 0
    else if a == [] then -1
    else if b == [] then 1
    else if a[0] < b[0] then -1
    else if a[0] > b[0] then 1
    else CompareAlphabetically(a[1..], b[1..])
  }

  /** Equal strings compare as 0, and only equal strings do. */
  lemma {:induction false} CompareZeroIffEqual(a: string, b: string)
    ensures CompareAlphabetically(a, b) == 0 <==> a == b
  {
    if a != [] && b != [] && a[0] == b[0] {
      CompareZeroIffEqual(a[1..], b[1..]);
      assert a == [a[0]] + a[1..] && b == [b[0]] + b[1..];
    }
  }

  /** Swapping the arguments flips the sign. */
  lemma {:induction false} CompareAntisymmetric(a: string, b: string)
    ensures CompareAlphabetically(b, a) == -CompareAlphabetically(a, b)
  {
    if a != [] && b != [] && a[0] == b[0] {
      CompareAntisymmetric(a[1..], b[1..]);
    }
  }

  /** "Sorts before" is transitive, so the comparator is a sort order. */
  lemma {:induction false} CompareTransitive(a: string, b: string, c: string)
    requires CompareAlphabetically(a, b) < 0 && CompareAlphabetically(b, c) < 0
    ensures CompareAlphabetically(a, c) < 0
  {
    if a != [] && b != [] && c != [] && a[0] == b[0] && b[0] == c[0] {
      CompareTransitive(a[1..], b[1..], c[1..]);
    }
  }

  // ---------------------------------------------------------------------------
  // Interval tests
  // ---------------------------------------------------------------------------

  datatype NumericRange = NumericRange(min: int, max: int)

  /** `numericIsBetweenInclusive(a, {min, max})`. */
  function NumericIsBetweenInclusive(a: int, b: NumericRange): (r: bool)
  {
    a >= b.min && a <= b.max
  }

  /** Both endpoints are admitted, and an inverted range admits nothing. */
  lemma NumericRangeEndpoints(a: int, b: NumericRange)
    ensures b.min <= b.max ==> NumericIsBetweenInclusive(b.min, b) && NumericIsBetweenInclusive(b.max, b)
    ensures b.min > b.max ==> !NumericIsBetweenInclusive(a, b)
    ensures NumericIsBetweenInclusive(a, b) <==> b.min <= a <= b.max
  {
  }

  /** A date range chosen in the date filter; instants are plain integers. */
  datatype DateRange = DateRange(start: int, end: int)

  /**
   * `dateInBetween(a, {start, end})`: moment's `isBetween` with no inclusivity
   * argument, which excludes both bounds.
   */
  function DateInBetween(a: int, b: DateRange): (r: bool)
  {
    b.start < a < b.end
  }

  /** Both bounds are excluded; a hit implies the range is not degenerate. */
  lemma DateBoundsExcluded(a: int, b: DateRange)
    ensures !DateInBetween(b.start, b) && !DateInBetween(b.end, b)
    ensures DateInBetween(a, b) ==> b.end - b.start >= 2
    ensures DateInBetween(a, b) <==> b.start < a && a < b.end
  {
  }

  // ---------------------------------------------------------------------------
  // Genre labels (`genreFix`)
  // ---------------------------------------------------------------------------

  /** `s.indexOf(c)`: the first position holding `c`, if any. */
  function IndexOf(s: string, c: char): (r: Option<nat>)
    ensures r.None? <==> c !in s
    ensures r.Some? ==> r.value < |s| && s[r.value] == c && c !in s[..r.value]
  {
    if s == [] then None
    else if s[0] == c then Some(0)
    else match IndexOf(s[1..], c)
      case None => None
      case Some(k) => Some(k + 1)
  }

  /** `genre.replace("_", " & ")`: only the first underscore is replaced. */
  function GenreFix(genre: string): (r: string)
    ensures '_' !in genre ==> r == genre
    ensures '_' in genre ==> |r| == |genre| + 2
  {
    match IndexOf(genre, '_')
    case None => genre
    case Some(i) => genre[..i] + " & " + genre[i + 1..]
  }

  /** The replacement happens at the first underscore; the rest is kept verbatim. */
  lemma GenreFixReplacesFirst(genre: string, i: nat)
    requires i < |genre| && genre[i] == '_' && '_' !in genre[..i]
    ensures GenreFix(genre) == genre[..i] + " & " + genre[i + 1..]
    ensures GenreFix(genre)[..i] == genre[..i]
    ensures GenreFix(genre)[i + 3..] == genre[i + 1..]
  {
    var k := IndexOf(genre, '_').value;
    assert k == i;
  }
}
