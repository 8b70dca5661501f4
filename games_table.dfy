/**
 * The games table's view model (components/GamesTable/index.js): the
 * per-column filter predicates, the distinct-value filter lists built from the
 * data, and the filter/sort state that the table's change handler replaces.
 */
module GamesTable {
  import opened Wrappers
  import opened Helpers
  import opened Constants
  import opened Catalog

  /** The columns that sort and filter; the actions column does neither. */
  datatype Column = Title | Genre | Upc | Publisher | Developer | Rating | Release

  /** `row[property]` for the column's data index. */
  function Cell(row: Game, col: Column): string
  {
    match col
    case Title => row.title
    case Genre => row.genre
    case Upc => row.upc
    case Publisher => row.publisher
    case Developer => row.developer
    case Rating => row.rating
    case Release => row.release
  }

  // ---------------------------------------------------------------------------
  // Filter predicates
  // ---------------------------------------------------------------------------

  /**
   * How a column filters: a free-text search popover, the table's own
   * checkbox list of distinct values, or a date-range popover.
   */
  datatype FilterKind = SearchFilter | SetFilter | DateRangeFilter

  function KindOf(col: Column): FilterKind
  {
    match col
    case Title => SearchFilter
    case Upc => SearchFilter
    case Release => DateRangeFilter
    case _ => SetFilter
  }

  /**
   * One selected filter key: a text (typed in the search popover, or the
   * value of a ticked checkbox) or a date range from the range picker.
   */
  datatype FilterKey = Query(text: string) | Between(range: DateRange)

  /** The search popover keeps at most one key, and never an empty text. */
  function SearchSelection(input: string): (keys: seq<FilterKey>)
    ensures |keys| <= 1
    ensures keys == [] <==> input == ""
    ensures forall k :: k in keys ==> k == Query(input) && input != ""
  {
    if input == "" then [] else [Query(input)]
  }

  /** The date-range popover keeps at most one key: the picked range. */
  function RangeSelection(picked: Option<DateRange>): (keys: seq<FilterKey>)
    ensures |keys| <= 1
    ensures keys == [] <==> picked.None?
    ensures picked.Some? ==> keys == [Between(picked.value)]
  {
    match picked
    case None => []
    case Some(r) => [Between(r)]
  }

  /**
   * The column's `onFilter(value, record)`: the comparator applied to the
   * record's cell first and the filter key second. Text columns, searched or
   * ticked, use `caseInsensitiveIncludes`; the release column parses its cell
   * with `parseDate` and uses `dateInBetween`; a cell moment cannot parse is
   * an invalid date, which `isBetween` never admits. A key of the other shape
   * admits nothing.
   */
  function OnFilter(col: Column, key: FilterKey, row: Game, parseDate: string -> Option<int>): bool
  {
    match (KindOf(col), key)
    case (DateRangeFilter, Between(r)) =>
      (match parseDate(Cell(row, col))
       case None => false
       case Some(instant) => DateInBetween(instant, r))
    case (DateRangeFilter, Query(_)) => false
    case (_, Query(q)) => CaseInsensitiveIncludes(Cell(row, col), q)
    case (_, Between(_)) => false
  }

  /**
   * Every text column, the checkbox-filtered ones included, admits a row when
   * the key occurs anywhere in its cell, ignoring case: containment, not
   * equality.
   */
  lemma TextFiltersAreSubstringTests(col: Column, q: string, row: Game, parseDate: string -> Option<int>)
    requires col != Release
    ensures OnFilter(col, Query(q), row, parseDate) <==>
      exists i :: OccursAt(ToLowerCaseString(Cell(row, col)), ToLowerCaseString(q), i)
  {
    CaseInsensitiveIncludesIffOccurs(Cell(row, col), q);
  }

  /** Ticking the "A" (Adult) rating also admits games rated "K_A". */
  lemma AdultRatingFilterAdmitsKidsToAdults(row: Game, parseDate: string -> Option<int>)
    requires row.rating == "K_A"
    ensures OnFilter(Rating, Query("A"), row, parseDate)
  {
    CaseInsensitiveIncludesIffOccurs("K_A", "A");
    assert ToLowerCaseString("K_A") == "k_a";
    assert ToLowerCaseString("A") == "a";
    assert OccursAt("k_a", "a", 2);
  }

  /** The title search "zel" admits "Zelda". */
  lemma TitleSearchAdmitsZelda(zelda: Game, q: string, parseDate: string -> Option<int>)
    requires zelda.title == "Zelda" && q == "zel"
    ensures OnFilter(Title, Query(q), zelda, parseDate)
  {
    var lq, lt := ToLowerCaseString(q), ToLowerCaseString(zelda.title);
    assert lq[0] == 'z' && lq[1] == 'e' && lq[2] == 'l';
    assert lt[0] == 'z' && lt[1] == 'e' && lt[2] == 'l';
    assert lt[0..3] == lq;
    assert OccursAt(lt, lq, 0);
    CaseInsensitiveIncludesIffOccurs(zelda.title, q);
    assert exists i :: OccursAt(ToLowerCaseString(zelda.title), ToLowerCaseString(q), i);
  }

  /** The title search "zel" admits "MARZEL". */
  lemma TitleSearchAdmitsMarzel(marzel: Game, q: string, parseDate: string -> Option<int>)
    requires marzel.title == "MARZEL" && q == "zel"
    ensures OnFilter(Title, Query(q), marzel, parseDate)
  {
    var lq, lt := ToLowerCaseString(q), ToLowerCaseString(marzel.title);
    assert lq[0] == 'z' && lq[1] == 'e' && lq[2] == 'l';
    assert lt[3] == 'z' && lt[4] == 'e' && lt[5] == 'l';
    assert lt[3..6] == lq;
    assert OccursAt(lt, lq, 3);
    CaseInsensitiveIncludesIffOccurs(marzel.title, q);
    assert exists i :: OccursAt(ToLowerCaseString(marzel.title), ToLowerCaseString(q), i);
  }

  /** The title search "zel" rejects "Mario". */
  lemma TitleSearchRejects(mario: Game, q: string, parseDate: string -> Option<int>)
    requires mario.title == "Mario" && q == "zel"
    ensures !OnFilter(Title, Query(q), mario, parseDate)
  {
    var lq, lm := ToLowerCaseString(q), ToLowerCaseString(mario.title);
    assert lq[0] == 'z';
    assert 'z' !in lm;
    CaseInsensitiveIncludesIffOccurs(mario.title, q);
    forall i ensures !OccursAt(lm, lq, i) {
      if 0 <= i && i + |lq| <= |lm| {
        assert lm[i..i + |lq|][0] == lm[i];
      }
    }
  }

  /**
   * The release column admits a row exactly when its release parses to a
   * date strictly inside the picked range: a date on either bound, or a
   * release that does not parse, is excluded.
   */
  lemma ReleaseFilterIsExclusive(r: DateRange, row: Game, parseDate: string -> Option<int>)
    ensures OnFilter(Release, Between(r), row, parseDate) <==>
      parseDate(row.release).Some? && r.start < parseDate(row.release).value < r.end
    ensures parseDate(row.release).None? ==> !OnFilter(Release, Between(r), row, parseDate)
    ensures parseDate(row.release) == Some(r.start) ==> !OnFilter(Release, Between(r), row, parseDate)
    ensures parseDate(row.release) == Some(r.end) ==> !OnFilter(Release, Between(r), row, parseDate)
  {
  }

  // ---------------------------------------------------------------------------
  // Sorting
  // ---------------------------------------------------------------------------

  /** The column's `sorter(a, b)`: its cells compared alphabetically. */
  function ColumnSorter(col: Column, a: Game, b: Game): int
  {
    CompareAlphabetically(Cell(a, col), Cell(b, col))
  }

  /** Each column's sorter is a strict order on rows by that column's text. */
  lemma ColumnSorterIsAnOrder(col: Column, a: Game, b: Game, c: Game)
    ensures ColumnSorter(col, a, b) == 0 <==> Cell(a, col) == Cell(b, col)
    ensures ColumnSorter(col, b, a) == -ColumnSorter(col, a, b)
    ensures ColumnSorter(col, a, b) < 0 && ColumnSorter(col, b, c) < 0 ==> ColumnSorter(col, a, c) < 0
  {
    CompareZeroIffEqual(Cell(a, col), Cell(b, col));
    CompareAntisymmetric(Cell(a, col), Cell(b, col));
    if ColumnSorter(col, a, b) < 0 && ColumnSorter(col, b, c) < 0 {
      CompareTransitive(Cell(a, col), Cell(b, col), Cell(c, col));
    }
  }

  // ---------------------------------------------------------------------------
  // Distinct-value filter lists (`buildFilters`)
  // ---------------------------------------------------------------------------

  /** One checkbox of a column's filter list. */
  datatype FilterEntry = FilterEntry(text: string, value: string)

  /** The label maps handed to `buildFilters`; none for publisher and developer. */
  function MappedValues(col: Column): map<string, string>
  {
    match col
    case Genre => GenreMap
    case Rating => EsrbMap
    case _ => map[]
  }

  /** A column's cells, row by row. */
  function Cells(data: seq<Game>, col: Column): (r: seq<string>)
    ensures |r| == |data|
  {
    seq(|data|, i requires 0 <= i < |data| => Cell(data[i], col))
  }

  /** Each value once, in the order of its first appearance. */
  function Dedup(s: seq<string>): (r: seq<string>)
    ensures Distinct(r)
    ensures forall x :: x in r <==> x in s
    ensures |r| <= |s|
  {
    if s == [] then []
    else
      var d := Dedup(s[..|s| - 1]);
      var x := s[|s| - 1];
      assert s == s[..|s| - 1] + [x];
      if x in d then d else d + [x]
  }

  /** Extending the input by one value extends the result by it when it is new. */
  lemma DedupSnoc(p: seq<string>, x: string)
    ensures Dedup(p + [x]) == if x in Dedup(p) then Dedup(p) else Dedup(p) + [x]
  {
    assert (p + [x])[..|p|] == p;
  }

  /** A truthy label from the map, or else the raw value. */
  function Label(value: string, mappedValues: map<string, string>): (text: string)
    ensures value in mappedValues && mappedValues[value] != "" ==> text == mappedValues[value]
    ensures !(value in mappedValues && mappedValues[value] != "") ==> text == value
  {
    if value in mappedValues && mappedValues[value] != "" then mappedValues[value] else value
  }

  function Entries(values: seq<string>, mappedValues: map<string, string>): (r: seq<FilterEntry>)
    ensures |r| == |values|
    ensures forall i :: 0 <= i < |values| ==> r[i] == FilterEntry(Label(values[i], mappedValues), values[i])
  {
    seq(|values|, i requires 0 <= i < |values| => FilterEntry(Label(values[i], mappedValues), values[i]))
  }

  lemma EntriesSnoc(d: seq<string>, x: string, mappedValues: map<string, string>)
    ensures Entries(d + [x], mappedValues) == Entries(d, mappedValues) + [FilterEntry(Label(x, mappedValues), x)]
  {
  }

  lemma CellsSnoc(data: seq<Game>, i: nat, col: Column)
    requires i < |data|
    ensures Cells(data[..i + 1], col) == Cells(data[..i], col) + [Cell(data[i], col)]
  {
  }

  /**
   * `buildFilters(propertyName, mappedValues)`: one pass over the rows, a map
   * of values already seen, and an entry pushed for every value met for the
   * first time.
   */
  method BuildFilters(data: seq<Game>, col: Column, mappedValues: map<string, string>)
    returns (result: seq<FilterEntry>)
    ensures result == Entries(Dedup(Cells(data, col)), mappedValues)
  {
    result := [];
    var seen: map<string, bool> := map[];
    for i := 0 to |data|
      invariant forall v :: v in seen <==> v in Cells(data[..i], col)
      invariant result == Entries(Dedup(Cells(data[..i], col)), mappedValues)
    {
      var property := Cell(data[i], col);
      ghost var before := Cells(data[..i], col);
      CellsSnoc(data, i, col);
      DedupSnoc(before, property);
      EntriesSnoc(Dedup(before), property, mappedValues);
      if property !in seen {
        seen := seen[property := true];
        if property in mappedValues && mappedValues[property] != "" {
          result := result + [FilterEntry(mappedValues[property], property)];
        } else {
          result := result + [FilterEntry(property, property)];
        }
      }
    }
    assert data[..|data|] == data;
  }

  /** The first position of `x` in `s`. */
  function FirstPosition(s: seq<string>, x: string): (k: nat)
    requires x in s
    ensures k < |s| && s[k] == x && x !in s[..k]
  {
    if s[0] == x then 0 else 1 + FirstPosition(s[1..], x)
  }

  lemma {:induction false} FirstPositionInPrefix(s: seq<string>, y: string, x: string)
    requires x in s
    ensures FirstPosition(s + [y], x) == FirstPosition(s, x)
  {
    if s[0] != x {
      assert (s + [y])[1..] == s[1..] + [y];
      FirstPositionInPrefix(s[1..], y, x);
    }
  }

  /** Entries keep the order in which each value first appears. */
  lemma {:induction false} DedupKeepsFirstSeenOrder(s: seq<string>)
    ensures forall i, j :: 0 <= i < j < |Dedup(s)| ==>
      FirstPosition(s, Dedup(s)[i]) < FirstPosition(s, Dedup(s)[j])
  {
    if s != [] {
      var p, x := s[..|s| - 1], s[|s| - 1];
      assert s == p + [x];
      DedupKeepsFirstSeenOrder(p);
      var d := Dedup(p);
      forall v | v in d ensures FirstPosition(s, v) == FirstPosition(p, v) {
        FirstPositionInPrefix(p, x, v);
      }
      if x !in d {
        assert x !in p;
        assert FirstPosition(s, x) == |p|;
      }
    }
  }

  /**
   * A column's checkbox list holds each value once, is no longer than the
   * data, and captions each value by its truthy mapped label or else by itself.
   */
  lemma FilterListShape(data: seq<Game>, col: Column, mappedValues: map<string, string>)
    ensures var r := Entries(Dedup(Cells(data, col)), mappedValues);
      && |r| <= |data|
      && (data == [] ==> r == [])
      && (forall i, j :: 0 <= i < j < |r| ==> r[i].value != r[j].value)
      && (forall e :: e in r ==>
            e.text == if e.value in mappedValues && mappedValues[e.value] != "" then mappedValues[e.value] else e.value)
  {
  }

  /**
   * A genre code's checkbox caption is the text the genre column renders in
   * its cells, `genreFix(text)`.
   */
  lemma GenreCaption(k: nat)
    requires k < |Genres|
    ensures Label(Genres[k], MappedValues(Genre)) == GenreFix(Genres[k])
  {
    GenreMapAgreesWithGenreFix();
    UnmappedGenresAreOwnLabel();
  }

  /** A rating code's checkbox caption is the text the rating column renders, `esrbMap[text]`. */
  lemma RatingCaption(k: nat)
    requires k < |EsrbRatings|
    ensures Label(EsrbRatings[k], MappedValues(Rating)) == EsrbMap[EsrbRatings[k]]
  {
    EsrbMapKeyedByRatings();
  }

  /**
   * The checkbox lists of the genre and rating columns are captioned from
   * `genreMap` and `esrbMap`, those of publisher and developer by the values
   * themselves. For the known codes, each caption is the text the column
   * renders in its cells.
   */
  lemma CheckboxCaptionsMatchRenderedCells(data: seq<Game>, col: Column)
    requires KindOf(col) == SetFilter
    ensures var r := Entries(Dedup(Cells(data, col)), MappedValues(col));
      && (col == Publisher || col == Developer ==> forall e :: e in r ==> e.text == e.value)
      && (col == Genre ==> forall e :: e in r && e.value in Genres ==> e.text == GenreFix(e.value))
      && (col == Rating ==> forall e :: e in r && e.value in EsrbRatings ==> e.text == EsrbMap[e.value])
  {
    var r := Entries(Dedup(Cells(data, col)), MappedValues(col));
    FilterListShape(data, col, MappedValues(col));
    if col == Genre {
      forall e | e in r && e.value in Genres ensures e.text == GenreFix(e.value) {
        var k :| 0 <= k < |Genres| && Genres[k] == e.value;
        GenreCaption(k);
      }
    } else if col == Rating {
      forall e | e in r && e.value in EsrbRatings ensures e.text == EsrbMap[e.value] {
        var k :| 0 <= k < |EsrbRatings| && EsrbRatings[k] == e.value;
        RatingCaption(k);
      }
    }
  }

  /** A column's checkbox list offers every value in the data and nothing else. */
  lemma FilterListCoversData(data: seq<Game>, col: Column, mappedValues: map<string, string>)
    ensures var r := Entries(Dedup(Cells(data, col)), mappedValues);
      && (forall k :: 0 <= k < |data| ==> exists e :: e in r && e.value == Cell(data[k], col))
      && (forall e :: e in r ==> exists k :: 0 <= k < |data| && Cell(data[k], col) == e.value)
  {
    var s := Cells(data, col);
    var d := Dedup(s);
    var r := Entries(d, mappedValues);
    forall k | 0 <= k < |data| ensures exists e :: e in r && e.value == Cell(data[k], col) {
      assert s[k] in d;
      var m :| 0 <= m < |d| && d[m] == s[k];
      assert r[m] in r;
    }
    forall e | e in r ensures exists k :: 0 <= k < |data| && Cell(data[k], col) == e.value {
      var m :| 0 <= m < |r| && r[m] == e;
      assert d[m] in s;
      var k :| 0 <= k < |s| && s[k] == d[m];
    }
  }

  // ---------------------------------------------------------------------------
  // View state (`tableInfo`, `handleChange`, per-column derivation)
  // ---------------------------------------------------------------------------

  datatype SortOrder = Ascend | Descend

  /** The table's sorter argument; both parts are absent when nothing sorts. */
  datatype Sorter = Sorter(columnKey: Option<Column>, order: Option<SortOrder>)

  /** The table's filters argument: each column's selected keys, or null. */
  type Filters = map<Column, Option<seq<FilterKey>>>

  /** The table's pagination argument, which the change handler ignores. */
  datatype Pagination = Pagination(current: nat, pageSize: nat)

  /** What each column derives from the view state. */
  datatype ColumnView = ColumnView(filteredValue: Option<seq<FilterKey>>, sortOrder: Option<SortOrder>)

  /**
   * `filteredValue: filteredInfo[key] || null` and
   * `sortOrder: sortedInfo.columnKey === key && sortedInfo.order`. Any list of
   * keys, even an empty one, is truthy and survives the `|| null`.
   */
  function ColumnViewOf(filteredInfo: Filters, sortedInfo: Sorter, col: Column): (v: ColumnView)
    ensures v.filteredValue.Some? <==> col in filteredInfo && filteredInfo[col].Some?
    ensures v.filteredValue.Some? ==> v.filteredValue == filteredInfo[col]
    ensures v.sortOrder.Some? <==> sortedInfo.columnKey == Some(col) && sortedInfo.order.Some?
    ensures v.sortOrder.Some? ==> v.sortOrder == sortedInfo.order
  {
    ColumnView(
      if col in filteredInfo then filteredInfo[col] else None,
      if sortedInfo.columnKey == Some(col) then sortedInfo.order else None)
  }

  /** At most one column shows a sort order. */
  lemma AtMostOneSortedColumn(filteredInfo: Filters, sortedInfo: Sorter, c1: Column, c2: Column)
    requires ColumnViewOf(filteredInfo, sortedInfo, c1).sortOrder.Some?
    requires ColumnViewOf(filteredInfo, sortedInfo, c2).sortOrder.Some?
    ensures c1 == c2
  {
  }

  /**
   * A search popover's selection, once the table stores it for its column,
   * becomes the column's filtered value, and each of its keys admits exactly
   * the rows whose cell contains the typed text, ignoring case.
   */
  lemma SearchSelectionFiltersRows(filteredInfo: Filters, sortedInfo: Sorter, col: Column,
                                   input: string, row: Game, parseDate: string -> Option<int>)
    requires KindOf(col) == SearchFilter
    requires col in filteredInfo && filteredInfo[col] == Some(SearchSelection(input))
    ensures var keys := ColumnViewOf(filteredInfo, sortedInfo, col).filteredValue;
      && keys == Some(SearchSelection(input))
      && (keys.value == [] <==> input == "")
      && forall k :: k in keys.value ==>
           (OnFilter(col, k, row, parseDate) <==> CaseInsensitiveIncludes(Cell(row, col), input))
  {
  }

  /**
   * A range popover's selection, once stored for the release column, admits
   * exactly the rows whose parsed date lies strictly inside the picked range.
   */
  lemma RangeSelectionFiltersRows(filteredInfo: Filters, sortedInfo: Sorter,
                                  picked: Option<DateRange>, row: Game, parseDate: string -> Option<int>)
    requires Release in filteredInfo && filteredInfo[Release] == Some(RangeSelection(picked))
    ensures var keys := ColumnViewOf(filteredInfo, sortedInfo, Release).filteredValue;
      && keys == Some(RangeSelection(picked))
      && (keys.value == [] <==> picked.None?)
      && (forall k :: k in keys.value ==>
           (OnFilter(Release, k, row, parseDate) <==>
              parseDate(row.release).Some? &&
              picked.value.start < parseDate(row.release).value < picked.value.end))
      && (parseDate(row.release).None? ==> forall k :: k in keys.value ==> !OnFilter(Release, k, row, parseDate))
  {
  }

  /** The table instance's `tableInfo` state. */
  class TableInfo {
    var filteredInfo: Filters
    var sortedInfo: Sorter

    /** Initially nothing is filtered and nothing is sorted. */
    constructor ()
      ensures filteredInfo == map[]
      ensures sortedInfo == Sorter(None, None)
    {
      filteredInfo := map[];
      sortedInfo := Sorter(None, None);
    }

    /**
     * `handleChange(pagination, filters, sorter)`: the new filters and sorter
     * replace the state wholesale; pagination is dropped.
     */
    method HandleChange(pagination: Pagination, filters: Filters, sorter: Sorter)
      modifies this
      ensures filteredInfo == filters
      ensures sortedInfo == sorter
    {
      filteredInfo := filters;
      sortedInfo := sorter;
    }
  }
}
