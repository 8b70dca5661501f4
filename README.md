# vg-archival catalogue core in Dafny

This project models the data logic of the vg-archival game catalogue, a web
application that lists the games of a console and imports new ones in
batches. Four parts of it are modelled:

- **Helpers** (`helpers.dfy`, helpers/index.js) hold the comparison and
  predicate helpers. They cover lower-casing, case-insensitive substring
  search, alphabetical comparison, the numeric and date interval tests, and
  `genreFix`.
- **Constants** (`constants.dfy`, constants/index.js) hold the ESRB rating
  codes, the genre codes, their label maps and their select-box options.
  Lemmas prove these tables consistent with each other.
- **GamesTable** (`games_table.dfy`, components/GamesTable/index.js) is the
  table's view model. It covers each column's filter predicate (a closed
  `FilterKind`: search, checkbox set or date range) and the `buildFilters`
  loop, which lists distinct values in first-seen order. It also covers the
  `tableInfo` state that `handleChange` replaces, and the per-column
  `filteredValue` and `sortOrder`.
- **GameDrawer** (`game_drawer.dfy`, components/GameDrawer/index.js) is the
  import drawer's form. It covers the per-field rules, the "at least one
  game" rule and the all-or-nothing hand-over to `onSuccess`. A `DrawerForm`
  class holds the draft list that the form syncs, appends to, deletes from
  and clears.

`Catalog.Game` is the persisted game row that both the table and the drawer
receive. `Wrappers.Option` stands for JavaScript's `undefined`.

The validator follows the form library's rule semantics as the drawer
configures them. A text field reports an absent or empty value only as
`Required`. Otherwise it checks the length limit and then the whitespace
test, so a whitespace-only text over the limit reports both. Enumeration
fields report `Required` only for an absent value; an empty text there is
`NotInEnum`. The UPC duplicate validator runs beside the UPC text rule.

Where the code differs from what a checkbox list, a date range or a
uniqueness rule usually mean, the model follows the code:

- The checkbox filters on genre, publisher, developer and rating test
  case-insensitive containment, not equality. Ticking "A" (Adult) also admits
  "K_A" (`AdultRatingFilterAdmitsKidsToAdults`).
- The date filter uses moment's `isBetween` with no inclusivity argument.
  A release on either bound is excluded, and so is a release that does not
  parse as a date (`ReleaseFilterIsExclusive`).
- UPC uniqueness is checked only against the console's existing games. Two
  drafts with the same new UPC both pass (`SiblingUpcsNotCompared`).

## Model

| member | source | states |
|---|---|---|
| `Helpers.ToLowerCaseString` | helpers/index.js:6 | lower-casing keeps the length and lower-cases each character |
| `Helpers.LowerForgetsCase` | helpers/index.js:6 | under the modelled A-Z case mapping, lower-casing is idempotent and undoes any earlier upper-casing |
| `Helpers.IncludesIffOccurs` | helpers/index.js:12-14 | the left-to-right `includes` scan is true exactly when the needle occurs as a contiguous block |
| `Helpers.CaseInsensitiveIncludesIffOccurs` | helpers/index.js:12-14 | `caseInsensitiveIncludes(a, b)` holds iff lower-cased `b` is a contiguous block of lower-cased `a` |
| `Helpers.EmptyQueryAndSelfMatch` | helpers/index.js:12-14 | the empty query admits every value, and every value admits itself |
| `Helpers.CaseInsensitiveIncludesIgnoresCase` | helpers/index.js:6-14 | under the modelled A-Z case mapping, upper- or lower-casing either argument never changes the answer |
| `Helpers.CompareAlphabetically` | helpers/index.js:8-10 | the comparison yields -1, 0 or 1 |
| `Helpers.CompareZeroIffEqual` | helpers/index.js:8-10 | the comparison is 0 exactly for equal strings |
| `Helpers.CompareAntisymmetric` | helpers/index.js:8-10 | swapping the arguments flips the sign |
| `Helpers.CompareTransitive` | helpers/index.js:8-10 | "sorts before" is transitive |
| `Helpers.NumericRangeEndpoints` | helpers/index.js:16-20 | `min <= a <= max`: both endpoints are included, and an inverted range admits nothing |
| `Helpers.DateBoundsExcluded` | helpers/index.js:22-26 | `start < a < end`: neither bound is admitted, and a hit needs `end - start >= 2` |
| `Helpers.IndexOf` | helpers/index.js:79-81 | finds the first position of a character, or none exactly when it is absent |
| `Helpers.GenreFix` | helpers/index.js:79-81 | no underscore: unchanged; otherwise the result is 2 characters longer |
| `Helpers.GenreFixReplacesFirst` | helpers/index.js:79-81 | only the first underscore becomes " & "; the text before and after is kept |
| `Constants.CodeListsDistinct` | constants/index.js:1-11 | 5 distinct rating codes and 8 distinct genre codes |
| `Constants.EsrbMapKeyedByRatings` | constants/index.js:1-23 | the keys of `esrbMap` are exactly the rating codes |
| `Constants.EsrbOptionsMatchRatings` | constants/index.js:1-31 | the rating options' values permute the rating codes, each captioned `esrbMap[value]` |
| `Constants.GenreOptionsPermuteGenres` | constants/index.js:2-42 | the genre options' values permute the genre codes, in a different order |
| `Constants.GenreFixActionAdventure` | constants/index.js:14 | `genreFix("Action_Adventure")` is "Action & Adventure" |
| `Constants.GenreFixPlain` | helpers/index.js:79-81 | a code without an underscore is its own label |
| `Constants.GenreOptionLabelsAreGenreFix` | constants/index.js:33-42 | every genre option is captioned `genreFix(value)` |
| `Constants.GenreMapAgreesWithGenreFix` | constants/index.js:13-15 | `genreMap` has the single key `Action_Adventure`, labelled `genreFix` of it |
| `Constants.UnmappedGenresAreOwnLabel` | constants/index.js:2-15 | `genreFix` leaves every genre outside `genreMap` unchanged |
| `GamesTable.SearchSelection` | components/TableFilters/Search/index.js:23 | the search popover keeps at most one key, never an empty text |
| `GamesTable.RangeSelection` | components/TableFilters/DateRange/index.js:15-21 | the range popover keeps at most one key, the picked range |
| `GamesTable.TextFiltersAreSubstringTests` | components/GamesTable/index.js:68-141 | every text column's `onFilter` is case-insensitive containment of the key in the record's cell |
| `GamesTable.AdultRatingFilterAdmitsKidsToAdults` | components/GamesTable/index.js:139-141 | the rating filter "A" admits a game rated "K_A" |
| `GamesTable.TitleSearchAdmitsZelda` | components/GamesTable/index.js:68-73 | the title search "zel" admits "Zelda" |
| `GamesTable.TitleSearchAdmitsMarzel` | components/GamesTable/index.js:68-73 | the title search "zel" admits "MARZEL" |
| `GamesTable.TitleSearchRejects` | components/GamesTable/index.js:68-73 | the title search "zel" rejects "Mario" |
| `GamesTable.ReleaseFilterIsExclusive` | components/GamesTable/index.js:157 | the release filter admits a row iff its release parses to a date strictly inside the range; a release that does not parse is never admitted |
| `GamesTable.ColumnSorterIsAnOrder` | components/GamesTable/index.js:65-155 | each column's sorter is zero only on equal cells, antisymmetric and transitive |
| `GamesTable.BuildFilters` | components/GamesTable/index.js:31-56 | the loop's result equals the distinct cell values in first-seen order, each with its label |
| `GamesTable.Dedup` | components/GamesTable/index.js:36-51 | distinct values, exactly the input's values, no more of them than inputs |
| `GamesTable.DedupKeepsFirstSeenOrder` | components/GamesTable/index.js:33-53 | result entries follow the order in which each value first appears |
| `GamesTable.FilterListShape` | components/GamesTable/index.js:33-53 | distinct values, no longer than the data, empty for no data; each value is captioned by its mapped label when that is present and non-empty, otherwise by itself |
| `GamesTable.GenreCaption` | components/GamesTable/index.js:84-87 | each genre code's checkbox caption, taken from `genreMap`, is the `genreFix` text its cells render |
| `GamesTable.RatingCaption` | components/GamesTable/index.js:141-146 | each rating code's checkbox caption, taken from `esrbMap`, is the `esrbMap` text its cells render |
| `GamesTable.CheckboxCaptionsMatchRenderedCells` | components/GamesTable/index.js:84-146 | publisher and developer checkboxes are captioned by their values; genre and rating checkboxes show, for known codes, the text the cells render |
| `GamesTable.FilterListCoversData` | components/GamesTable/index.js:36-51 | every cell value is offered, and every offered value is some cell |
| `GamesTable.ColumnViewOf` | components/GamesTable/index.js:64-66 | `filteredValue` is the column's keys or null; `sortOrder` is set only when the sorter names the column |
| `GamesTable.SearchSelectionFiltersRows` | helpers/index.js:69-70 | a stored search selection is the column's filtered value, empty iff the input is empty, and its key admits exactly the rows whose cell contains the input, ignoring case |
| `GamesTable.RangeSelectionFiltersRows` | helpers/index.js:69-70 | a stored range selection is the release column's filtered value, empty iff nothing was picked, and its key admits exactly the rows whose release parses to a date strictly inside the range; an unparseable release is never admitted |
| `GamesTable.AtMostOneSortedColumn` | components/GamesTable/index.js:66-155 | at most one column has a sort order |
| `GamesTable.TableInfo.constructor` | components/GamesTable/index.js:17-20 | the table starts with nothing filtered and nothing sorted |
| `GamesTable.TableInfo.HandleChange` | components/GamesTable/index.js:24-29 | the new filters and sorter replace the state wholesale; pagination is ignored |
| `GameDrawer.Validate` | components/GameDrawer/index.js:119-229 | a violation is reported iff its kind is among its field's rule results; none iff every field passes |
| `GameDrawer.TextRuleAccepts` | components/GameDrawer/index.js:123 | a text rule passes iff the value is present, within the limit and not whitespace-only |
| `GameDrawer.FieldRulesAcceptExactly` | components/GameDrawer/index.js:119-229 | all field rules pass iff the draft meets every field requirement |
| `GameDrawer.ValidateAcceptsExactly` | components/GameDrawer/index.js:119-229 | a draft has no violation iff it is acceptable |
| `GameDrawer.DuplicateUpcIff` | components/GameDrawer/index.js:151-165 | the duplicate-UPC violation is reported iff an existing game has the same UPC |
| `GameDrawer.TakenUpcExample` | components/GameDrawer/index.js:152-164 | with existing UPCs "001" and "002", "001" is a duplicate |
| `GameDrawer.NewUpcExample` | components/GameDrawer/index.js:152-164 | with existing UPCs "001" and "002", "003" is not a duplicate |
| `GameDrawer.DraftErrors` | components/GameDrawer/index.js:112-246 | every error names a draft and one of its violations, every violation of draft i is reported as an error at i, and there are none iff every draft passes |
| `GameDrawer.FormErrors` | components/GameDrawer/index.js:96-108 | the "at least one game" error is reported iff the list is absent or empty; the field errors are exactly the violations of each draft, tagged with its position |
| `GameDrawer.FormErrorsEmptyIff` | components/GameDrawer/index.js:89-108 | the form reports nothing iff the list is non-empty and every draft is acceptable |
| `GameDrawer.OneBadDraftRejectsAll` | components/GameDrawer/index.js:89-95 | one failing draft rejects the whole list |
| `GameDrawer.SiblingUpcsNotCompared` | components/GameDrawer/index.js:152-164 | two drafts with the same new UPC both pass |
| `GameDrawer.DrawerForm.constructor` | components/GameDrawer/index.js:42 | a new form holds no drafts and is hidden |
| `GameDrawer.DrawerForm.SyncGames` | components/GameDrawer/index.js:44-46 | incoming games overwrite the draft list |
| `GameDrawer.DrawerForm.Add` | components/GameDrawer/index.js:251 | a blank draft is appended |
| `GameDrawer.DrawerForm.Remove` | components/GameDrawer/index.js:234 | the draft at the index is removed; an index past the end changes nothing |
| `GameDrawer.DrawerForm.Edit` | components/GameDrawer/index.js:119-229 | one draft is replaced, and reading it back gives the written value |
| `GameDrawer.DrawerForm.InternalToggle` | components/GameDrawer/index.js:56-59 | cancelling or closing empties the drafts and flips visibility |
| `GameDrawer.DrawerForm.Submit` | components/GameDrawer/index.js:48-54 | the drafts reach `onSuccess` iff a handler is given and the whole list is acceptable, and then unchanged |

## Left out

- `Helpers.CompareAlphabetically`: models `localeCompare` as lexicographic order of code points, because locale collation is library behaviour. In particular, `localeCompare` returns 0 for canonically equivalent strings such as "\u00e9" and "e\u0301". So the "0 only for equal strings" direction of `Helpers.CompareZeroIffEqual` and `GamesTable.ColumnSorterIsAnOrder` holds for the model's order only.
- `Helpers.ToLowerCaseString`: lower-cases only the ASCII letters A-Z, because full Unicode case mapping is library data.
- `Helpers.LowerForgetsCase`: its second property holds only for the A-Z mapping. With full Unicode mapping, "ß" upper-cases to "SS", which lower-cases to "ss", not "ß".
- `Helpers.CaseInsensitiveIncludesIgnoresCase`: holds only for the A-Z mapping. With full Unicode mapping, the value "ß" contains the query "ß", but its upper-cased form "SS" does not.
- Dates are integer instants. Moment's parsing of the release text is a function parameter (`parseDate`) of `GamesTable.OnFilter`, which yields `None` for a text that does not parse. The millisecond granularity of `isBetween` is not modelled.
- `GamesTable.OnFilter`: a key of the wrong shape admits nothing. That case cannot arise from the popovers, and the source would coerce the key to a string instead.
- The table library's application of filters and sorters to rows is not modelled. Neither is pagination.
- The `Intl.NumberFormat` currency formatter (helpers/index.js:73-77) is not modelled: it is locale formatting and unused by the core.
- `getFilter`'s `filterDropdown`, the cell renderers, the detail-page link and the popover markup are rendering only.
- The validation message texts, focusing the first invalid field and the asynchronous scheduling of validators are not modelled. Only the violation kind is kept.
- Text-field values that are not strings (numbers, `null`) are not modelled. The validator's type errors for them are therefore absent.
- `GameDrawer.DrawerForm.InternalToggle`: `resetFields([])` by itself names no field. The drafts become empty because the page's toggle hands back an empty `games` list, which the sync effect writes. `open` mirrors the page's `isDrawerOpen` flag.
- CSV ingestion, the 100-record cap, the create-and-publish mutations and the upload endpoint are not part of this model. They live in pages/consoles/[slug].js and pages/api/consoles/[slug].js, and they are asynchronous I/O against the remote API.
- Routing, authentication, the menu and layout components, and the Next.js configuration are out of scope.
