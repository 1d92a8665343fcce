# Documentation-comment extraction, modelled in Dafny

This project models the extraction engine of coala's documentation support:
`coalib/bearlib/languages/documentation/DocumentationExtraction.py`. The engine
reads a source file as a list of lines. Each line keeps its `\n`, except
possibly the last. It also takes a priority-ordered catalog of marker sets
`(start, each_line, end)`. It finds every documentation comment and, for each
one, returns the comment's text with the markers stripped, the marker set that
matched, and the comment's 1-based text range.

The modules follow the structure of that file:

- `PyStrings` (py_strings.dfy): Python's `str.find` with a start index, and
  slicing with negative and out-of-range bounds, which Python clamps.
- `Markers` (markers.dfy): marker sets, and the three modes an each-line
  marker selects.
- `Strategies` (strategies.dfy): the three extraction strategies and the
  dispatcher.
  - `_extract_doccomment_simple`, `_continuous` and `_standard` become
    `ExtractSimple`, `ExtractContinuous` and `ExtractStandard`.
  - `_extract_doccomment` becomes `ExtractDocComment`.
  - Each `while` loop becomes a tail-recursive `...Loop` function over the
    line index.
  - Independent reference definitions (`AlignedBlock`, `MarkedBlock`, and
    predicates such as `FirstLineWith`) say what the loops produce.
  - `EndLineFragment` is the closing line's contribution in standard mode. It
    keeps the source's `each_line_pos + 1 < pos` guard.
    `EndLineGuardIsRedundant` gives its guard-free meaning: the slice between
    the two markers, or nothing when the each-line marker is absent.
- `BeginMatcher` (begin_matcher.dfy): what the start-marker regular
  expression `s0|s1|...` finds, and the `marker_dict`.
  - The search is stated directly. It returns the leftmost position where
    some start marker occurs and, at that position, the first such marker in
    catalog order.
- `Scanner` (scanner.dfy): the driver `extract_documentation_with_markers`.
  - It moves a `(line, column)` cursor.
  - One `Step` is one iteration of its loop.
  - `Scan` gathers the records.
- `Scenarios` (scenarios.dfy): one worked document per mode, each run
  through the dispatcher.

Every operation is a pure function that returns `Option` where the source
returns `None`. Lines are `seq<char>`, with one index per character.

For `["/** hello */\n"]` the code computes the range (1,1)–(1,13): `pos = 10`
and the end column is `pos + len("*/") + 1`. `Scenarios.SimpleOneLine` states
the 0-based column 12.

## Model

| member | source | states |
|---|---|---|
| PyStrings.Find | coalib/bearlib/languages/documentation/DocumentationExtraction.py:14 | `find` returns -1 exactly when the literal does not occur at or after the start index; otherwise the match lies inside the string, at or after the start index |
| PyStrings.FindIsFirstOccurrence | coalib/bearlib/languages/documentation/DocumentationExtraction.py:59 | when the literal occurs, `find` returns its first occurrence at or after the start index |
| PyStrings.FindReturnsFirstOccurrence | coalib/bearlib/languages/documentation/DocumentationExtraction.py:20 | conversely, an occurrence with none before it (from the start index) is what `find` returns |
| PyStrings.FindFails | coalib/bearlib/languages/documentation/DocumentationExtraction.py:40 | with no occurrence from the start index on, `find` returns -1 |
| PyStrings.ContainsFromMeaning | coalib/bearlib/languages/documentation/DocumentationExtraction.py:15 | the recursive "occurs from here" predicate behind `find(...) != -1` is equivalent to the existence of an occurrence at or after the index |
| PyStrings.Slice | coalib/bearlib/languages/documentation/DocumentationExtraction.py:24 | `s[a:b]` is the subsequence when both bounds are in range and ordered, and empty when `0 <= b <= a` (as with `0 <= pos < align_column`); it is never longer than `s`. Negative bounds count from the end, as in Python |
| Markers.ModeOf | coalib/bearlib/languages/documentation/DocumentationExtraction.py:90-98 | an empty each-line marker selects simple mode; an each-line marker equal to the end marker selects continuous mode; anything else selects standard mode (each case stated as an if-and-only-if) |
| Markers.ModeIgnoresStart | coalib/bearlib/languages/documentation/DocumentationExtraction.py:91-94 | the mode never depends on the start marker |
| Strategies.SimpleLoopEnds | coalib/bearlib/languages/documentation/DocumentationExtraction.py:19-29 | the simple loop fails exactly when no line from `l` on has the end marker; otherwise it stops on the first such line, just after that line's first end marker |
| Strategies.SimpleLoopText | coalib/bearlib/languages/documentation/DocumentationExtraction.py:19-25 | the loop's text is the gathered prefix, then every passed line cut at the alignment column (`AlignedBlock`), then the closing line from the alignment column to its end marker |
| Strategies.ExtractSimple | coalib/bearlib/languages/documentation/DocumentationExtraction.py:11-31 | a result lies on or after the start line, inside the document, with room for the end marker before its column; a same-line result ends after the start column plus the end marker |
| Strategies.SimpleResult | coalib/bearlib/languages/documentation/DocumentationExtraction.py:11-31 | with the end marker later on the start line: that line, just after its first end marker, with the text between the markers. Otherwise: it fails exactly when no later line has an end marker; on success it ends on the first such line, with the rest of the start line, the aligned middle lines, and the aligned closing line up to its end marker |
| Strategies.ContinuousLoopStops | coalib/bearlib/languages/documentation/DocumentationExtraction.py:39-46 | when some line lacks the marker, the continuous loop returns `(first such line, 0)`, with every line before it taken after its first marker |
| Strategies.ContinuousLoopExhausts | coalib/bearlib/languages/documentation/DocumentationExtraction.py:39-55 | when every remaining line carries the marker, all of them are taken after their markers. The cursor is `(len(content), 0)` if the last line ends in `\n`, and `(len(content)-1, len(last line))` otherwise |
| Strategies.ExtractContinuous | coalib/bearlib/languages/documentation/DocumentationExtraction.py:34-55 | continuous mode never fails; its cursor is at column 0 of a later line (possibly just past the last line) or at the end of the last line |
| Strategies.ContinuousResult | coalib/bearlib/languages/documentation/DocumentationExtraction.py:34-55 | the text is the rest of the start line followed by every later marked line after its marker. The comment ends at the start of the first unmarked line or, when there is none, at the end of the document as in `ContinuousLoopExhausts` |
| Strategies.StandardLoopClosesHere | coalib/bearlib/languages/documentation/DocumentationExtraction.py:74-81 | a line with an end marker closes the loop on that line, just after its first end marker, adding only the closing-line fragment |
| Strategies.StandardLoopContinues | coalib/bearlib/languages/documentation/DocumentationExtraction.py:68-73 | a line with an each-line marker and no end marker adds its text after the first each-line marker and hands on to the next line |
| Strategies.CloseOrFail | coalib/bearlib/languages/documentation/DocumentationExtraction.py:64-85 | from any line on, some line closes a standard comment exactly when no line breaks the layout first and some line has an end marker |
| Strategies.StandardLoopDecides | coalib/bearlib/languages/documentation/DocumentationExtraction.py:64-85 | the standard loop succeeds exactly when a line closes the comment. It fails exactly when a line with neither marker comes first or no line has an end marker |
| Strategies.StandardLoopCloses | coalib/bearlib/languages/documentation/DocumentationExtraction.py:64-81 | on success, the result line is the closing line (every earlier line has the each-line marker and no end marker), and the column is just after its first end marker |
| Strategies.StandardLoopText | coalib/bearlib/languages/documentation/DocumentationExtraction.py:64-83 | on success, the text is the gathered prefix, then every continuation line after its first each-line marker (`MarkedBlock`), then the closing line's fragment |
| Strategies.ExtractStandard | coalib/bearlib/languages/documentation/DocumentationExtraction.py:58-87 | a result lies on or after the start line, inside the document, with room for the end marker before its column |
| Strategies.StandardResult | coalib/bearlib/languages/documentation/DocumentationExtraction.py:58-87 | the same-line case as in simple mode. Otherwise it succeeds exactly when a later line closes the comment, and fails exactly on a layout break or when the document runs out. On success it ends on the closing line just after its first end marker, with the rest of the start line, the marked middle lines and the closing fragment |
| Strategies.ExtractDocComment | coalib/bearlib/languages/documentation/DocumentationExtraction.py:90-98 | the dispatched strategy never fails in continuous mode. Any result is a valid cursor at or after the start position. Outside continuous mode it lies inside the document, with room for the end marker before its column |
| Strategies.StandardSameLineIsSimple | coalib/bearlib/languages/documentation/DocumentationExtraction.py:86-87 | when the end marker follows on the start line, standard and simple mode return the same result |
| Strategies.EndLineGuardIsRedundant | coalib/bearlib/languages/documentation/DocumentationExtraction.py:77-79 | with a non-empty each-line marker, the `each_line_pos + 1 < pos` guard never changes the closing fragment: it equals the plain slice between the markers, or nothing when the each-line marker is absent |
| BeginMatcher.Starts | coalib/bearlib/languages/documentation/DocumentationExtraction.py:138-139 | the alternatives are the catalog's start markers, one per entry, in catalog order |
| BeginMatcher.FirstAlternativeFrom | coalib/bearlib/languages/documentation/DocumentationExtraction.py:108 | at a fixed position, the alternation picks the first alternative that occurs there, and none when no alternative occurs |
| BeginMatcher.SearchFromLeftmost | coalib/bearlib/languages/documentation/DocumentationExtraction.py:144 | the recursive search reports the leftmost position where any alternative occurs and, there, the first alternative in order; it reports none exactly when none occurs |
| BeginMatcher.SearchIsLeftmost | coalib/bearlib/languages/documentation/DocumentationExtraction.py:144 | `begin_regex.search(line, column)` finds the leftmost start marker at or after the column, ties going to the marker listed first; it fails exactly when no start marker occurs at or after the column |
| BeginMatcher.Candidates | coalib/bearlib/languages/documentation/DocumentationExtraction.py:129-134 | the marker sets listed under a start marker are exactly the catalog entries with that start marker |
| BeginMatcher.RegisterLast | coalib/bearlib/languages/documentation/DocumentationExtraction.py:130-134 | one more iteration of the registration loop turns the dictionary of the catalog's prefix into the dictionary of the longer prefix |
| BeginMatcher.MarkerDict | coalib/bearlib/languages/documentation/DocumentationExtraction.py:129-134 | `marker_dict` has exactly the start markers as keys, each mapped to its marker sets in catalog order |
| BeginMatcher.RegisteredEntry | coalib/bearlib/languages/documentation/DocumentationExtraction.py:147 | every marker set under a key is a catalog entry with that start marker |
| BeginMatcher.EveryEntryRegistered | coalib/bearlib/languages/documentation/DocumentationExtraction.py:131-134 | every catalog entry is listed under its own start marker, so `marker_dict[begin_match.group()]` never misses |
| Scanner.TryCandidates | coalib/bearlib/languages/documentation/DocumentationExtraction.py:147-149 | a successful attempt names a candidate whose extraction returns exactly the reported result |
| Scanner.TryCandidatesFirst | coalib/bearlib/languages/documentation/DocumentationExtraction.py:147-159 | the candidate used is the first in catalog order whose extraction succeeds (every earlier one fails); no candidate is used exactly when all fail |
| Scanner.RecordWellFormed | coalib/bearlib/languages/documentation/DocumentationExtraction.py:150-158 | the record built from a start marker and an extraction after it has a catalog marker set, starts where that set's start marker occurs, and ends after its start |
| Scanner.TryMarkerSets | coalib/bearlib/languages/documentation/DocumentationExtraction.py:146-159 | trying the registered marker sets moves the cursor forward inside the document. A record it yields is well formed and ends at the new cursor; when none succeeds, the cursor lands just past the start marker |
| Scanner.TryMarkerSetsPriority | coalib/bearlib/languages/documentation/DocumentationExtraction.py:146-159 | when no candidate succeeds, the cursor stays on the line just past the start marker and nothing is yielded. Otherwise the record of the first successful candidate is yielded, with that extraction's text, starting at the start marker (1-based). The new cursor, and so the record's end, is where that extraction ended |
| Scanner.Step | coalib/bearlib/languages/documentation/DocumentationExtraction.py:143-162 | one loop iteration moves the cursor strictly forward and stays inside the document. A yielded record is well formed, starts after the cursor on the cursor's line, and ends at the new cursor (1-based). A step that yields nothing and stays on the line has just passed a start marker |
| Scanner.StepFollowsPriority | coalib/bearlib/languages/documentation/DocumentationExtraction.py:143-162 | without a begin match, the cursor moves to column 0 of the next line. Otherwise the marker sets registered under the matched start marker are tried in order. The first success is yielded with its extracted text, starting at the match, and the cursor moves to where that extraction ended; if all fail, the cursor moves just past the match |
| Scanner.Scan | coalib/bearlib/languages/documentation/DocumentationExtraction.py:141-162 | from any cursor inside the document, every record is well formed and starts at or after that cursor; the records have strictly increasing starts, and each starts at or after the end of the one before |
| Scanner.ExtractDocumentationWithMarkers | coalib/bearlib/languages/documentation/DocumentationExtraction.py:111-162 | every record uses a catalog marker set, starts where its start marker occurs and ends after it starts; the records come in document order without overlapping |
| Scenarios.SimpleOneLine | coalib/bearlib/languages/documentation/DocumentationExtraction.py:30-31 | `/** hello */` with markers `("/**", "", "*/")` gives the text `" hello "` and ends at 0-based column 12 |
| Scenarios.StandardJavadoc | coalib/bearlib/languages/documentation/DocumentationExtraction.py:58-83 | a four-line Javadoc comment gives `"\n line one\n line two\n"` and ends on its last line just after `*/` |
| Scenarios.ContinuousHashes | coalib/bearlib/languages/documentation/DocumentationExtraction.py:37-46 | two `##` lines followed by code give `" first\n second\n"` and end at the start of the code line |
| Scenarios.StandardMalformed | coalib/bearlib/languages/documentation/DocumentationExtraction.py:64-72 | a continuation line with neither marker makes the standard attempt fail |
| Scenarios.PriorityFallback | coalib/bearlib/languages/documentation/DocumentationExtraction.py:147-159 | with two marker sets sharing `/**`, the standard one listed first fails on a malformed comment. The simple one listed second is used and reads the comment up to the `*/` of its last line |

## Left out

- `extract_documentation` (lines 165-194) is left out. It only loads a `DocstyleDefinition` from definition files, which is configuration and file I/O with its own errors. `DocstyleDefinition` is not part of this model.
- Regular-expression compilation, `re.escape` and the `re` engine are left out. The alternation is replaced by the declarative leftmost search of `BeginMatcher`.
- `DocumentationComment`, `TextPosition` and `TextRange` are left out as classes. They become plain datatypes (`DocComment`, `Position`, `TextRange`).
- Generator laziness is left out. The driver returns the finite sequence of all records. Repeated runs on the same input give the same records because every member is a pure function.
- Character encodings are left out. A line is a sequence of characters, with one index per character.
- There is no round-trip property, because the extraction is lossy. Simple mode cuts continuation lines at the start marker's column. Standard and continuous modes drop everything before a line's first each-line marker. No operation in this file rebuilds a comment from its text. The model states instead what the text is made of (`SimpleResult`, `StandardResult`, `ContinuousResult`) and where the markers sit (`WellFormedRecord`, `FirstEndsAt`).
- BeginMatcher.Search: requires the start index to be within the line. Python also accepts a larger index and then finds nothing; the driver never passes one, so that case is not modelled.
- Strategies.ExtractDocComment: requires, in continuous mode, that the last line be non-empty whenever the loop can run past the end of the document. Otherwise the source's `content[line - 1][-1]` raises `IndexError`. The driver always meets this, since a start marker was just found on the line.
- Strategies.ExtractContinuous: carries the same precondition, for the same reason.
- Scanner.ExtractDocumentationWithMarkers: requires every start marker to be non-empty. An empty start marker matches the empty string, so a line on which every candidate fails would never advance the cursor and the source's loop would not end.
- Scanner.ExtractDocumentationWithMarkers: also requires a non-empty catalog when the document has lines. An empty alternation matches the empty string, and the source then fails looking up `marker_dict[""]` with `KeyError`.
- Scanner.ExtractDocumentationWithMarkers: its contract states the well-formedness and order of the records. It does not state which records appear or what text they carry. `Scanner.StepFollowsPriority` states both for one step: the record's marker set, text, start and end. That step-level statement is not lifted to the whole list.
