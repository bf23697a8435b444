# beetman skip-log scanner, in Dafny

beetman drives `beet import` and afterwards reads beet's import log to find
out which albums of a batch were skipped, and why. This project models that
scanner, `Parser.ParseSkippedAlbums` in `internal/log/parser.go`, once the log
has been read into a sequence of lines.

A line that starts with `duplicate-skip ` gives the reason `duplicate`. A
line that starts with `skip ` gives `no strong match`. Every other line is
ignored. For a qualifying line the scanner takes the text after the prefix and
normalises it:

1. it cuts the text at the first `;`;
2. it trims surrounding white space;
3. it applies `filepath.Clean`;
4. it splits the result on `/files/flac/`.

The split must give exactly two pieces. Otherwise the Go code panics, and the
model returns `Fatal(path)`. The second piece is the album key, and the scanner
writes it into the result map, overwriting any earlier reason for that album.

Files:

- `go_strings.dfy` (module `GoStrings`) models the Go `strings` functions the
  scanner calls: `HasPrefix`, `TrimPrefix`, `Index`, `Split` (with `Join`)
  and `TrimSpace` over the Unicode White_Space set.
- `filepath.dfy` (module `FilePath`) models `filepath.Clean` for
  slash-separated paths: it drops empty and `.` elements, resolves `..`
  against the previous element (dropped at the root, kept at the front of a
  relative path), and turns an empty result into `.`.
- `parser.dfy` (module `SkipLog`) holds the model itself:
  - the per-line outcome `ParseLine`;
  - the specification `Scan`, a fold over the line outcomes;
  - the class `Parser`, whose loop method `ParseSkippedAlbums` is proved
    equal to `Scan`.
- `parser_facts.dfy` (module `SkipLogFacts`) proves what the scan
  guarantees. It covers prefixes, the `;` cut, the fatal outcome, the shape
  of the keys and values, and last-wins overwriting.
- `parser_examples.dfy` (module `SkipLogExamples`) proves the scenarios of
  `internal/log/parser_test.go`. Each holds for every album name of the shape
  the tests use, with the library rooted at `/lib` in place of the tests'
  temporary directory.

The split check reads like "the cleaned path contains `/files/flac/` exactly
once", but it is not quite that. `strings.Split` counts matches that do not
overlap, and `/files/flac/` can overlap itself on a `/`. So the path
`/lib/files/flac/files/flac/album` holds it twice, yet it splits into two
pieces and gives the key `files/flac/album`. The model follows the code.
`SplitEntry` states the exact condition, and `OverlappingMarkerAccepted`
proves this example.

## Model

| member | source | states |
|---|---|---|
| SkipLog.Outcomes | internal/log/parser.go:37-38 | no contract: the reference definition that classifies each line on its own, in order; `OutcomesConcat` characterises it |
| SkipLog.Fold | internal/log/parser.go:35-66 | no contract: the reference fold of the loop body over the outcomes (ignored lines skipped, entries written over earlier ones, the first malformed outcome ends it); the `Fold…` lemmas of `SkipLogFacts` characterise it |
| SkipLog.Scan | internal/log/parser.go:35-72 | no contract: the reference definition of the whole scan, the fold from an empty map; `ParseSkippedAlbums` is proved equal to it and the `Scan…` lemmas of `SkipLogFacts` characterise it |
| SkipLog.Parser.ParseSkippedAlbums | internal/log/parser.go:25-73 | the loop over the lines returns exactly `Scan(lines)`: the map of the specification fold, or the fatal outcome of the first malformed line |
| SkipLog.Parser.New | internal/log/parser.go:17-21 | the new parser keeps the cleaned album directory |
| SkipLog.ParseLine | internal/log/parser.go:40-49 | a line is ignored exactly when it has neither prefix; a qualifying line's reason is `duplicate` or `no strong match`; an album key never contains `/files/flac/` |
| SkipLog.BeforeSemicolon | internal/log/parser.go:51-54 | the result is a prefix of the path with no `;` in it, and it stops either at the end of the path or at its first `;` |
| SkipLog.NormalizePath | internal/log/parser.go:51-56 | the path after the cut, the trim and the clean is never empty |
| SkipLog.SplitEntry | internal/log/parser.go:58-63 | the path is malformed exactly when `/files/flac/` does not occur, or occurs again after the end of its first match; a malformed outcome carries the cleaned path; otherwise the key is the text after the first match, the reason is kept, and the key holds no `/files/flac/` |
| SkipLog.AlbumEntry | internal/log/parser.go:51-63 | the path text of a qualifying line always gives an entry or a malformed outcome, never an ignored line; a key holds no `/files/flac/` |
| GoStrings.HasPrefix | internal/log/parser.go:41-44 | no contract: the definition of `strings.HasPrefix` (the line is at least as long as the prefix and begins with it); `TrimPrefix`, `DuplicateSkipLine` and `SkipLine` state what it decides |
| GoStrings.IsSpace | internal/log/parser.go:55 | no contract: the table of `unicode.IsSpace`, the characters with the Unicode White_Space property (tab, line feed, vertical tab, form feed, carriage return, space, U+0085, U+00A0, U+1680, U+2000 to U+200A, U+2028, U+2029, U+202F, U+205F, U+3000) |
| GoStrings.TrimPrefix | internal/log/parser.go:43 | with the prefix present, prefix plus result is the input; otherwise the input comes back unchanged |
| GoStrings.Index | internal/log/parser.go:52 | the result is -1 exactly when the separator does not occur; otherwise it is a position where the separator occurs, and no earlier position has it |
| GoStrings.Split | internal/log/parser.go:59 | at least one piece; joining the pieces with the separator gives the input back; no piece contains the separator; every piece but the last ends at the first match after its start, so with a self-overlapping separator the cuts fall where Go's left-to-right, non-overlapping search puts them |
| GoStrings.SplitInTwo | internal/log/parser.go:59-60 | two pieces exactly when there is a first match and no match after it; the pieces are then the text before and after that first match |
| GoStrings.TrimSpace | internal/log/parser.go:55 | the result is no longer than the input and neither starts nor ends with white space; an input that neither starts nor ends with white space is returned unchanged |
| GoStrings.TrimLeftSpace | internal/log/parser.go:55 | the result is a suffix of the input, everything dropped is white space, and the result does not start with white space |
| GoStrings.TrimRightSpace | internal/log/parser.go:55 | the result is a prefix of the input, everything dropped is white space, and the result does not end with white space |
| FilePath.Clean | internal/log/parser.go:56 | the result is never empty, starts with `/` exactly when the input does, and ends with `/` only when it is the root `/` |
| FilePath.Resolve | internal/log/parser.go:56 | resolving the raw elements keeps only non-empty elements free of `/` |
| FilePath.SplitJoinSlash | internal/log/parser.go:56 | splitting on `/` undoes joining with `/` when no element holds a `/` |
| FilePath.CleanRootedPlain | internal/log/parser.go:56 | a rooted path whose elements are all plain (not empty, `.` or `..`) is already clean |
| SkipLogFacts.DuplicateSkipLine | internal/log/parser.go:41-43 | a `duplicate-skip ` line is the entry with reason `duplicate` for the text after the prefix |
| SkipLogFacts.SkipLine | internal/log/parser.go:44-46 | a `skip ` line is the entry with reason `no strong match` for the text after the prefix |
| SkipLogFacts.BeforeSemicolonUnique | internal/log/parser.go:52-54 | any `;`-free prefix that ends at a `;` or at the end of the path is the cut |
| SkipLogFacts.AfterSemicolonIgnored | internal/log/parser.go:51-54 | two lines that agree up to their first `;` have the same outcome |
| SkipLogFacts.FoldSucceedsIff | internal/log/parser.go:37-66 | the fold succeeds exactly when no outcome is malformed |
| SkipLogFacts.FoldStopsAtFirstMalformed | internal/log/parser.go:60-62 | the fold ends with the path of the first malformed outcome |
| SkipLogFacts.FoldEntriesFromOutcomes | internal/log/parser.go:65 | every entry of the result is in the starting map or comes from some outcome with the same reason |
| SkipLogFacts.FoldKeepsUnnamed | internal/log/parser.go:65 | an album no outcome names keeps its starting entry, or stays absent |
| SkipLogFacts.FoldLastWins | internal/log/parser.go:65 | the last outcome naming an album decides its reason |
| SkipLogFacts.FoldAppend | internal/log/parser.go:37-66 | one more outcome: a failed fold stays failed, a malformed outcome fails it, and any other outcome adds its entry to the map |
| SkipLogFacts.FoldSkipsUnrelated | internal/log/parser.go:47-49 | removing an ignored outcome does not change the fold |
| SkipLogFacts.FoldOfUnrelated | internal/log/parser.go:47-49 | a fold over ignored outcomes only returns its starting map |
| SkipLogFacts.OutcomesConcat | internal/log/parser.go:37-38 | lines are classified one by one, so the outcomes of two logs put together are the outcomes of each, in order |
| SkipLogFacts.ScanSucceedsIff | internal/log/parser.go:59-62 | the scan succeeds exactly when no line is malformed |
| SkipLogFacts.ScanStopsAtFirstMalformed | internal/log/parser.go:59-62 | a malformed line ends the scan with its cleaned path, whatever follows, when no earlier line was malformed |
| SkipLogFacts.ScanEntriesFromLines | internal/log/parser.go:40-65 | every key of a successful scan comes from some line that names that album with that reason |
| SkipLogFacts.ScanEntriesWellFormed | internal/log/parser.go:40-65 | every value is `duplicate` or `no strong match`, and no key contains `/files/flac/` |
| SkipLogFacts.ScanLastWins | internal/log/parser.go:65 | when several lines name the same album, the reason of the last one is recorded |
| SkipLogFacts.ScanKeysAreNamedAlbums | internal/log/parser.go:63-65 | the keys are exactly the albums that some line names |
| SkipLogFacts.LastNaming | internal/log/parser.go:65 | any album some line names is a key of a successful scan |
| SkipLogFacts.ScanAppend | internal/log/parser.go:37-66 | one more line: a failed scan stays as it was, an ignored line changes nothing, a malformed line ends the scan, and a qualifying line sets its album's entry, adds only that key and leaves every other entry alone |
| SkipLogFacts.UnrelatedLineIgnored | internal/log/parser.go:47-49 | a line with neither prefix can be removed from anywhere in a log without changing the scan |
| SkipLogFacts.NoQualifyingLineGivesEmptyMap | internal/log/parser.go:35-72 | a log with no qualifying line, the empty log included, gives an empty map and no error |
| SkipLogExamples.LibraryEntry | internal/log/parser.go:51-63 | the path of an album directly under the library, with or without a `;` note, gives that album name as the key |
| SkipLogExamples.SkipLibraryLine | internal/log/parser_test.go:30-39 | a `skip ` line for such an album is its entry with reason `no strong match` |
| SkipLogExamples.DuplicateSkipLibraryLine | internal/log/parser_test.go:42-50 | a `duplicate-skip ` line for such an album is its entry with reason `duplicate` |
| SkipLogExamples.TwoEntries | internal/log/parser.go:65 | two qualifying lines give exactly their two entries, the second winning on a shared album |
| SkipLogExamples.BasicSkip | internal/log/parser_test.go:30-40 | two `skip ` lines with notes give their two albums with reason `no strong match` (also the "skip with spaces" case, lines 72-82) |
| SkipLogExamples.DuplicateSkipEntries | internal/log/parser_test.go:41-51 | a `duplicate-skip ` line and a `skip ` line each give their own reason |
| SkipLogExamples.LaterLineOverwrites | internal/log/parser.go:65 | a later line for the same album replaces the earlier reason |
| SkipLogExamples.NoSkips | internal/log/parser_test.go:52-59 | a log of `added` lines gives an empty map |
| SkipLogExamples.MixedContent | internal/log/parser_test.go:60-71 | an `added` line between two skips changes nothing: exactly the two skipped albums are recorded |
| SkipLogExamples.OutsideLibraryPath | internal/log/parser.go:59-62 | a two-element path with no `/files/flac/` is malformed and carries itself as the path |
| SkipLogExamples.FatalSecond | internal/log/parser.go:59-62 | a malformed second line ends the scan with its path, even after an entry |
| SkipLogExamples.PathOutsideLibraryIsFatal | internal/log/parser.go:59-62 | a `skip ` line outside any `/files/flac/` directory after a good line ends the scan with that path |
| SkipLogExamples.OverlappingMarkerAccepted | internal/log/parser.go:59-63 | `/lib/files/flac/files/flac/album` holds `/files/flac/` twice, yet it gives the key `files/flac/album` |

## Left out

- Opening the log file, the not-found case that returns no map and no error, and the wrapped open error (internal/log/parser.go:26-33): these are operating-system I/O, so the input is an already-read sequence of lines.
- `bufio.Scanner` line splitting, its token-size limit and the read error from `scanner.Err()` (internal/log/parser.go:36-37, 68-70): these are library I/O behaviour.
- The difference between a nil map and an empty one: the code always returns a fresh empty map when no entry is recorded, and the model returns `Ok(map[])`.
- The panic's message text and unwinding: the model returns `Fatal` with the cleaned path the message would print.
- Go strings are byte strings. The model works on Unicode characters, which matches for valid UTF-8 text; invalid UTF-8 is not modelled.
- `filepath.Clean` is modelled for slash-separated paths only, as on Unix; Windows volume names and separators are not modelled.
- `albumsDir` is stored by `New` and never read by the scan; the model keeps the field and proves nothing more about it.
- The test scenarios are proved with the library rooted at `/lib` and for album names that are one plain path element, have no `;` and do not start or end with white space. The tests' random temporary directory is not modelled.
