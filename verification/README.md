# package-explorer, modelled in Dafny

package-explorer is a terminal browser for the packages installed on an Arch
Linux system. It lists the packages through a provider, either the pacman
adapter or, when `pacman` is absent, a synthetic provider of fifty records.
It shows them in a scrolling pane that can be narrowed by a fuzzy search
query and a filter (all / explicit / AUR) and ordered in one of four sort
modes. The selected package's details (description, repository,
architecture, install date, dependency lists) are fetched lazily from
`pacman -Qi` when it is first selected.

This project models the core of that program:

- `fuzzy.dfy` (module `Fuzzy`): case folding (`to_lower`) and the greedy
  subsequence matcher (`fuzzy_match`). The matcher is proved equal to a
  recursive subsequence relation, and that relation equal to an independent
  description by strictly increasing positions.
- `ordering.dfy` (module `Ordering`): `filter_accept` and `sort_less`.
  `sort_less` is proved a strict weak order, with ties characterised
  exactly.
- `visible.dfy` (module `Visible`): `recompute_visible_indices`, as a filter
  phase and an ordering phase. The result holds every accepted index
  exactly once and nothing else, with no inversion under the comparator.
- `browser.dfy` (module `Browser`): the key loop of `main`, as a class
  `Session` whose fields are the loop's variables. Each key is proved to
  keep the view consistent (`Valid`), and its effect is stated per mode.
- `pacman_text.dfy` (module `PacmanText`): `trim`, `starts_with` and
  `split_dep_list`.
- `pacman.dfy` (module `Pacman`): the line logic of
  `PacmanPackageManager::listInstalled` and `PacmanPackageManager::fillDetails`.
  Process output is given as the lines `fgets` reads, or `None` when `popen`
  fails.
- `dummy.dfy` (module `Dummy`): `DummyPackageManager::listInstalled`.
- Support modules: `Wrappers` (`Option`), `PackageModel` (the `Package`
  record), `Ascii` (C-locale `isspace`, `isalnum`, `tolower`) and `Decimal`
  (`std::to_string` for non-negative integers, with its inverse).

Notes on the source as written:

- `DummyPackageManager` declares no `fillDetails`, although the interface
  makes it pure virtual (include/PackageManager.h:28). The model gives the
  synthetic provider no `fillDetails` either. Its records already carry a
  description, so the pacman rule would never query them
  (`Dummy.DummyHasSummary`).
- Neither provider ever sets `is_foreign` or `is_explicit`. The explicit
  and AUR filters therefore always show an empty list
  (`Dummy.UnflaggedFiltersEmpty`).
- The listing parser accepts a line that starts with a space and yields a
  record with an empty name.
- `fillDetails` reports success when a description or repository line is
  present, even if its value is blank. Such a record still looks unfilled,
  so the next selection queries it again.
- The help overlay's `else if (ch == 'q') break;` is unreachable, because
  the loop condition already stops on 'q'.

## Model

| member | source | states |
|---|---|---|
| `Ascii.LowerChar` | src/main.cpp:31-38 | `std::tolower` in the C locale: the result is never upper case, non-letters are kept, and A..Z move by 32 |
| `Fuzzy.Lower` | src/main.cpp:31-38 | folding keeps the length and folds each character by `tolower` |
| `Fuzzy.ToLower` | src/main.cpp:31-38 | the character loop builds exactly the folded string |
| `Fuzzy.LowerKeepsLowercase` | src/main.cpp:31-38 | a string without upper-case letters folds to itself |
| `Fuzzy.Embedding` | src/main.cpp:47-61 | when the pattern is a subsequence of the text, the greedy scan's positions form a strictly increasing embedding |
| `Fuzzy.EmbeddingGivesSubsequence` | src/main.cpp:47-61 | any strictly increasing embedding makes the pattern a subsequence |
| `Fuzzy.SubsequenceIffEmbedding` | src/main.cpp:40-63 | the recursive subsequence relation holds iff an embedding exists |
| `Fuzzy.FuzzyMatch` | src/main.cpp:40-63 | an empty pattern matches; otherwise the greedy cursor loop returns true iff the folded pattern is a subsequence of the folded text |
| `Fuzzy.SubsequenceNoLonger` | src/main.cpp:47-61 | a pattern longer than the text never matches |
| `Fuzzy.MissingCharRejects` | src/main.cpp:47-61 | a pattern character that occurs nowhere in the text rules the match out |
| `Fuzzy.Pkg5MatchesPackageNames` | src/main.cpp:40-63 | the folded "pkg5" matches every folded "package-<d>" whose suffix contains a '5', so matching is not a substring test |
| `Fuzzy.Pkg5RejectsPackage4` | src/main.cpp:40-63 | the folded "pkg5" does not match the folded "package-4", which lacks the '5' |
| `Ordering.FilterAccept` | src/main.cpp:65-74 | All accepts everything; ExplicitOnly accepts iff explicit; AurOnly accepts iff foreign |
| `Ordering.LexLess` | src/main.cpp:81 | `std::string` `<`: a string is never below itself, and a proper prefix is below any extension of it |
| `Ordering.SortLess` | src/main.cpp:76-105 | `sort_less` holds only between packages with different sort keys; in ExplicitFirst an explicit package precedes a non-explicit one, in AurFirst a foreign package precedes a non-foreign one |
| `Ordering.LexLessIrreflexive` | src/main.cpp:78-81 | `std::string` `<` is irreflexive |
| `Ordering.LexLessTransitive` | src/main.cpp:78-81 | `std::string` `<` is transitive |
| `Ordering.LexLessTotal` | src/main.cpp:78-81 | two different strings are ordered one way or the other |
| `Ordering.SortLessIrreflexive` | src/main.cpp:76-105 | no package sorts before itself, in any mode |
| `Ordering.SortLessTransitive` | src/main.cpp:76-105 | `sort_less` is transitive in every mode |
| `Ordering.SortLessAsymmetric` | src/main.cpp:76-105 | `sort_less` never holds both ways |
| `Ordering.SortTieIff` | src/main.cpp:76-105 | two packages tie iff they have the same folded name and, in a flag mode, the same flag, so ties form an equivalence as `std::sort` requires |
| `Ordering.NameDescIsConverse` | src/main.cpp:80-84 | descending order is ascending order with the arguments swapped |
| `Ordering.FlaggedFirst` | src/main.cpp:85-102 | a flagged package precedes an unflagged one; equal flags fall back to ascending folded names |
| `Ordering.CaseVariantsTie` | src/main.cpp:76-105 | "Foo" and "foo" with equal flags tie in every mode |
| `Visible.Accepted` | src/main.cpp:115-121 | the accept test implies `filter_accept`; with an empty query it is exactly `filter_accept`; a query longer than the name is never accepted |
| `Visible.AcceptedBelowMembers` | src/main.cpp:111-122 | the first phase collects a strictly increasing list that contains exactly the accepted indices |
| `Visible.AcceptedBelowCounts` | src/main.cpp:111-122 | each accepted index occurs exactly once, and nothing else occurs |
| `Visible.FilterIndices` | src/main.cpp:111-122 | the filter loop (filter mode first, then the fuzzy match for a non-empty query) yields exactly those indices in increasing order |
| `Visible.InsertionKeepsOrder` | src/main.cpp:124-129 | inserting an index before the first entry it precedes keeps the list free of inversions |
| `Visible.InsertSorted` | src/main.cpp:124-129 | one insertion keeps the list free of inversions and adds exactly that index to its multiset |
| `Visible.SortIndices` | src/main.cpp:124-129 | the ordering phase yields a permutation of its input with no inversion under `sort_less` |
| `Visible.RecomputeVisible` | src/main.cpp:107-130 | the result lists each accepted index exactly once, no other index, and no later entry sorts strictly before an earlier one |
| `Visible.VisibleSetDetermined` | src/main.cpp:107-130 | the sort mode never changes which indices are visible |
| `Visible.VisibleEntriesAccepted` | src/main.cpp:107-130 | every visible entry is accepted, and no entry repeats |
| `Visible.VisibleLength` | src/main.cpp:111-122 | the visible list is as long as the number of accepted packages |
| `Visible.AllAcceptedBelow` | src/main.cpp:66-67 | with an empty query and the All filter every index is accepted |
| `Visible.VisibleWithoutNarrowing` | src/main.cpp:107-130 | an empty query under All lists every package |
| `Browser.Classify` | src/main.cpp:469-523 | how the loop reads a key code: 27 is escape, KEY_BACKSPACE/127/8 are backspace, '\n'/KEY_ENTER are enter, the arrow codes are up and down, and 32..126 are typed characters |
| `Browser.NextFilter` | src/main.cpp:544-551 | 'f' always changes the filter, and it returns to All exactly from AUR |
| `Browser.NextSort` | src/main.cpp:563-572 | 'o' always changes the order, and it returns to NameAsc exactly from AurFirst |
| `Browser.FilterCycle` | src/main.cpp:544-551 | 'f' cycles All, Explicit, AUR with period exactly 3 |
| `Browser.SortCycle` | src/main.cpp:563-572 | 'o' cycles the four sort modes with period exactly 4 |
| `Browser.Session.constructor` | src/main.cpp:426-450 | set-up: empty query, no search, no help, All, NameAsc, selection and scroll at 0, the top entry (or none) current, and the view consistent |
| `Browser.Session.Refresh` | src/main.cpp:472-481 | after a query or mode change the list is recomputed, selection and scroll are reset, and the new top entry (or none) becomes current and is enriched |
| `Browser.Session.Move` | src/main.cpp:503-522 | Up/Down moves the selection one step within bounds and scrolls the least amount that keeps it in view; the new selection is enriched; an empty list is left alone |
| `Browser.Session.SearchKey` | src/main.cpp:468-536 | search mode: Escape leaves and clears the query; Backspace drops the last character (nothing if the query is empty); Enter leaves and keeps the query; arrows move; a printable character is appended; each query change refreshes the list |
| `Browser.Session.NormalKey` | src/main.cpp:537-604 | normal mode: '/' enters search, 'h'/'?' open help, 'f'/'o' cycle filter/order and refresh, arrows move, any other key changes nothing |
| `Browser.Session.HandleKey` | src/main.cpp:458-605 | one loop turn: quit iff 'q' (tested first, state untouched); in help only 'h'/'?' have an effect (closing help); otherwise the search-mode or normal-mode step; the view stays consistent and the enriched index is the current package or none |
| `Browser.DownTwiceScrollsByOne` | src/main.cpp:584-604 | three packages, two rows, Down twice: the third entry is selected and the window has scrolled by one |
| `PackageModel.NewPackage` | src/PacmanPackageManager.cpp:104-112 | a listed record has its name and version, every detail field empty, and both flags false |
| `PacmanText.SkipSpaces` | src/PacmanPackageManager.cpp:16-20 | the forward scan stops at the first non-space at or after its start |
| `PacmanText.SkipSpacesBack` | src/PacmanPackageManager.cpp:22-25 | the backward scan stops after the last non-space, never below the start |
| `PacmanText.Trimmed` | src/PacmanPackageManager.cpp:15-28 | the trimmed text is a slice of `s` that starts where the leading whitespace ends |
| `PacmanText.TrimmedShape` | src/PacmanPackageManager.cpp:15-28 | the trimmed text is the slice of `s` between leading and trailing whitespace; it starts and ends with a non-space and keeps every non-space character |
| `PacmanText.TrimIdempotent` | src/PacmanPackageManager.cpp:15-28 | trimming twice is trimming once |
| `PacmanText.TrimEmptyIffAllSpace` | src/PacmanPackageManager.cpp:15-28 | the result is empty iff the input is all whitespace |
| `PacmanText.TrimKeepsUnpadded` | src/PacmanPackageManager.cpp:15-28 | a string without edge whitespace trims to itself |
| `PacmanText.TrimAfterSpace` | src/PacmanPackageManager.cpp:15-28 | " " + v trims back to v when v has no edge whitespace |
| `PacmanText.Trim` | src/PacmanPackageManager.cpp:15-28 | the two index loops compute exactly the trimmed string |
| `PacmanText.StartsWith` | src/PacmanPackageManager.cpp:30-33 | `starts_with` holds iff `s` is the prefix followed by some rest |
| `PacmanText.StartsWithIffAgrees` | src/PacmanPackageManager.cpp:30-33 | `starts_with` holds iff `s` is long enough and agrees with the prefix character by character |
| `PacmanText.Find` | src/PacmanPackageManager.cpp:146 | `find` returns the first position holding the character |
| `PacmanText.Pieces` | src/PacmanPackageManager.cpp:45 | cutting at spaces gives at least one piece, and no piece contains a space |
| `PacmanText.PiecesJoin` | src/PacmanPackageManager.cpp:45 | joining the pieces with single spaces gives the input back |
| `PacmanText.GetlineTokens` | src/PacmanPackageManager.cpp:42-45 | the tokens `getline` reads with delimiter ' ' contain no space |
| `PacmanText.PiecesOfWord` | src/PacmanPackageManager.cpp:45 | a word without spaces is one token |
| `PacmanText.PiecesAfterWord` | src/PacmanPackageManager.cpp:45 | a word followed by a space is the first token of what follows |
| `PacmanText.TokensOfThree` | src/PacmanPackageManager.cpp:42-45 | three space-separated words are read as exactly those three tokens |
| `PacmanText.NamePrefixLength` | src/PacmanPackageManager.cpp:56-62 | the `idx` scan stops at the first character outside alnum, '@', '_', '-', '.' |
| `PacmanText.NamePrefixUnique` | src/PacmanPackageManager.cpp:56-62 | any index where the name characters stop is that scan's result |
| `PacmanText.DepName` | src/PacmanPackageManager.cpp:46-66 | a token contributes at most one name, and that name is non-empty and made of name characters |
| `PacmanText.TokenName` | src/PacmanPackageManager.cpp:46-66 | the token loop body (trim, skip empty or ",", pop a trailing comma, scan name characters, keep a non-empty prefix) computes `DepName` |
| `PacmanText.DepNames` | src/PacmanPackageManager.cpp:45-67 | at most one name per token, each a valid name |
| `PacmanText.DepNamesAppend` | src/PacmanPackageManager.cpp:45-67 | names keep token order and are not deduplicated: the names of a + b are those of a followed by those of b |
| `PacmanText.DepList` | src/PacmanPackageManager.cpp:35-70 | "None" gives no names; every returned name is valid, and there is at most one per token |
| `PacmanText.SplitDepList` | src/PacmanPackageManager.cpp:35-70 | "None" gives no names; otherwise each token contributes its name in order |
| `PacmanText.NameBeforeConstraint` | src/PacmanPackageManager.cpp:56-66 | a name followed by a version constraint contributes just the name |
| `PacmanText.NameAlone` | src/PacmanPackageManager.cpp:56-66 | a bare name contributes itself |
| `PacmanText.NameBeforeComma` | src/PacmanPackageManager.cpp:52-66 | "name," contributes the name |
| `PacmanText.NoneAndEmptyGiveNothing` | src/PacmanPackageManager.cpp:38-47 | "None" and "" give no names |
| `PacmanText.ConstraintExample` | src/PacmanPackageManager.cpp:35-70 | "lib>=2.0" gives ["lib"] |
| `PacmanText.SeparatorsDropped` | src/PacmanPackageManager.cpp:35-70 | "a b, c" gives a, b, c in order, with the separators dropped |
| `PacmanText.CommaExample` | src/PacmanPackageManager.cpp:35-70 | "foo bar, baz" gives ["foo", "bar", "baz"] |
| `Pacman.StripNewline` | src/PacmanPackageManager.cpp:89-91 | a trailing newline is removed, exactly one; any other line is kept |
| `Pacman.ListingRecord` | src/PacmanPackageManager.cpp:89-114 | a line yields a record iff its stripped text contains a space; the name is the text before the first space, the version the rest, and the record is otherwise fresh |
| `Pacman.ListingRecords` | src/PacmanPackageManager.cpp:86-115 | at most one record per line; names without spaces; no details; no flags |
| `Pacman.ParseListingLine` | src/PacmanPackageManager.cpp:87-114 | the listing loop body computes `ListingRecord` |
| `Pacman.ListInstalled` | src/PacmanPackageManager.cpp:74-119 | a failed `popen` gives no records; otherwise one record per well-formed line, in line order |
| `Pacman.ListingRoundTrip` | src/PacmanPackageManager.cpp:96-106 | printing "name version\n" and parsing it gives the record back, for any name without a space |
| `Pacman.ListingExample` | src/PacmanPackageManager.cpp:96-106 | the line "foo 1.2.3\n" gives foo / 1.2.3 |
| `Pacman.VersionKeepsSpaces` | src/PacmanPackageManager.cpp:96-102 | only the first space separates: "a b c" gives name a, version "b c" |
| `Pacman.LeadingSpaceGivesEmptyName` | src/PacmanPackageManager.cpp:96-101 | any line " <version>\n" gives a record with an empty name and that version |
| `Pacman.SkippedLines` | src/PacmanPackageManager.cpp:92-99 | an empty line and a line without a space give no record |
| `Pacman.Label` | src/PacmanPackageManager.cpp:145-172 | the six field labels, none containing a colon |
| `Pacman.Matched` | src/PacmanPackageManager.cpp:145-177 | a matched field's label starts the line; an unmatched line starts with none of the six labels |
| `Pacman.StepLine` | src/PacmanPackageManager.cpp:139-177 | one line never changes name, version, flags or the dependency lists, never clears `ok`, and leaves the scan alone when it has no label or no colon |
| `Pacman.LabelsExclusive` | src/PacmanPackageManager.cpp:145-177 | no line starts with two different labels |
| `Pacman.MatchedIffLabel` | src/PacmanPackageManager.cpp:145-177 | the `else if` order never matters: a line belongs to a field iff it starts with that field's label |
| `Pacman.ValueAfterColon` | src/PacmanPackageManager.cpp:146-148 | find the colon and trim what follows it; lines without a colon give nothing |
| `Pacman.LastPresent` | src/PacmanPackageManager.cpp:138-178 | locates the last line that set a field, or reports that none did |
| `Pacman.LatestIsLast` | src/PacmanPackageManager.cpp:138-178 | a field has a final value iff some line set it, and then it is the value of the last such line |
| `Pacman.LatestAt` | src/PacmanPackageManager.cpp:138-178 | conversely, a line after which no line sets the field gives the final value |
| `Pacman.LatestSnoc` | src/PacmanPackageManager.cpp:138-178 | one more entry becomes the latest value when present and leaves it otherwise |
| `Pacman.ScanStep` | src/PacmanPackageManager.cpp:138-178 | one more line either sets the field or leaves its last value |
| `Pacman.ScanOfStep` | src/PacmanPackageManager.cpp:138-178 | stepping line by line agrees with reading each field off its last line |
| `Pacman.ScanLine` | src/PacmanPackageManager.cpp:139-177 | one loop pass (newline stripped, label chain, colon and trim) sets at most the field the line belongs to, and `ok` on description or repository |
| `Pacman.Enriched` | src/PacmanPackageManager.cpp:121-186 | `fillDetails` keeps name, version and flags, and leaves only valid names in the dependency lists |
| `Pacman.FillDetails` | src/PacmanPackageManager.cpp:121-186 | a record with a description or repository returns true unchanged; a failed `popen` returns false unchanged; otherwise each field takes its last line's value, both dependency lists are replaced, and the result is true iff a description or repository line was seen |
| `Pacman.ColonLineValue` | src/PacmanPackageManager.cpp:146-148 | "key pad: value" gives the value, whatever colons the value holds |
| `Pacman.FieldLineValue` | src/PacmanPackageManager.cpp:145-149 | a `pacman -Qi` line "Label pad: value" sets that field to the value |
| `Pacman.AbsentDependsGivesNothing` | src/PacmanPackageManager.cpp:167-182 | without a "Depends On" line, `depends_on` is empty |
| `Pacman.LastDescriptionWins` | src/PacmanPackageManager.cpp:145-150 | the last description line decides the description and makes the call succeed; a non-blank one stops later queries |
| `Pacman.BlankSummaryQueriesAgain` | src/PacmanPackageManager.cpp:122-124 | if every description and repository value is blank, the filled record still needs a query |
| `Pacman.BlankDescriptionSucceeds` | src/PacmanPackageManager.cpp:145-150 | "Description     : " alone sets a blank description and makes the call succeed |
| `Decimal.NatToString` | src/DummyPackageManager.cpp:13-15 | `std::to_string` of n >= 0: non-empty, digits only, no leading zero, one digit iff n < 10 |
| `Decimal.ParseNatToString` | src/DummyPackageManager.cpp:13-15 | reading the printed digits gives n back |
| `Decimal.NatToStringInjective` | src/DummyPackageManager.cpp:13-15 | different numbers print differently |
| `Dummy.DummyRecord` | src/DummyPackageManager.cpp:12-17 | a synthetic record sets only name, version and description; no flags, repository, architecture, date or dependencies |
| `Dummy.ListInstalled` | src/DummyPackageManager.cpp:7-21 | exactly 50 records, the k-th (0-based) numbered k + 1 |
| `Dummy.DummyNameNumber` | src/DummyPackageManager.cpp:13 | the name is "package-" followed by the digits of k + 1 |
| `Dummy.DummyVersion` | src/DummyPackageManager.cpp:14 | the version is "1.0." followed by the last digit of k + 1 |
| `Dummy.DummyDescriptionNumber` | src/DummyPackageManager.cpp:15 | the description is "Dummy package number " followed by the digits of k + 1 |
| `Dummy.DummyNamesDistinct` | src/DummyPackageManager.cpp:13 | no two records share a name |
| `Dummy.DummyHasSummary` | src/DummyPackageManager.cpp:15 | every record has a non-empty description |
| `Dummy.UnflaggedFiltersEmpty` | src/main.cpp:65-74 | over records without flags, the explicit and AUR views are empty for any query and order |
| `Dummy.DummyFiltersEmpty` | src/DummyPackageManager.cpp:11-18 | the synthetic list shows nothing under the explicit or AUR filter |

## Left out

- Rendering, windows, colours and the help text (`create_window`, `render_packages`, `render_details`, the mode labels) are not modelled. They draw state and change none.
- Terminal size: `list_height` is a parameter of the session; `getmaxyx` is not modelled. When the pane has fewer than one row, the model keeps the source's scroll arithmetic but promises no window containment.
- `has_pacman` and the choice of provider are not modelled. Each provider's operations are modelled on their own, without an interface type.
- `popen`, `fgets` and `pclose`: process output is a parameter (the lines read, or `None` when `popen` fails). The command text, quoting of the name and the 4096-byte `fgets` buffer (longer lines arrive in pieces) are not modelled.
- Characters are treated as single C-locale bytes. Locale-dependent `isspace`, `isalnum` and `tolower` and multi-byte text are not modelled.
- `Visible.RecomputeVisible`: does not fix which of several tied packages comes first. `std::sort` is not stable and promises no particular order of ties, so the model states only the permutation and the absence of inversions.
- `Browser.Session.HandleKey`: the `fillDetails` call is reported as the global index it would enrich (`enriched`). The details are not written back into the package list, because filtering and sorting never read the detail fields.
- `DummyPackageManager::fillDetails` does not exist in the source, so none is modelled; the synthetic records already carry a description.
- Integer widths: `int` and `size_t` are unbounded here. The source never comes near their limits (at most fifty records for the dummy, vector sizes otherwise).
