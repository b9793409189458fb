# Verse-store batch scripts, modelled in Dafny

This project models the Node batch scripts of a Bible reader. The scripts
reconcile generated verse translations ("AV" sources) into per-chapter
stores and check how much of the KJV baseline a source covers:

- `collect-av` correlates batch results with the request map by request id. It writes a tagged TSV and can import the verses.
- `import-av-mirror` pairs the lines of a mirror file with the request map by position.
- `import-av-txt` parses a tagged text export and merges it into the existing chapter files, overwriting the verses it names.
- `seed-from-kjv` fills the blank or missing verses of a source from the KJV.
- `verify-coverage` counts, per chapter, book and run, the baseline verses a source fills. It also gives the percentage.
- `import-kjv` turns the downloaded corpus into chapter files and updates the catalog.
- `scaffold-source-book` creates an empty file for each catalog chapter that does not have one.

The store of one source is `Store.Files`, a map from `(book, chapter)` to
the chapter's verse map. Reading a file that is missing or unreadable gives
`{}` (`Store.Load`). Writing a file is a map update. The catalog is
`Catalog.Catalog`: its `books` object, plus the `Object.keys` order of that
object. JSON values that the scripts inspect are `Json.Json`. JavaScript
`undefined` is `None`. A thrown exception is an `Err` result.

Each tool's loops are methods. Each method is proved against a
specification function. Its properties are lemmas about that function:

- merging twice is merging once;
- seeding never overwrites a filled verse;
- coverage counts stay within their bounds;
- the request-id lookup is last-write-wins;
- `mapPathFromMirror` keeps the directory.

The regular expressions are explicit scanners. Each also has an
independent definition of what a match is, written group by group, and
lemmas that tie the scanner to it:

- `^(.+?)\s+(\d+):(\d+)$` is `Locator.Locate`. `Locator.Matches` defines a match. The scanner reports a match iff there is one, and its book is the shortest.
- The line pattern of `import-av-txt` is `ImportAvTxt.FindBook`, a lazy search over book ends. `ImportAvTxt.LineMatches` defines a match. `ImportAvTxt.FirstMatch` picks the match a backtracking engine reports: the longest leading whitespace, then the shortest book. `parseLine`'s result is proved to be the record of that match's groups, and `null` when there is no match.

Behaviour of the code worth noting:

- A fatal error does not always come before every write. `seed-from-kjv` has written the earlier books when a later book throws, and `import-kjv` has written the earlier books' chapters when a later book throws (`SeedFromKjv.SeedBooksFailed`, `ImportKjv.ImportAllSticky`).
- `collect-av` and `import-av-mirror` replace each chapter file wholesale. They write every grouped chapter, changed or not. Only `import-av-txt` skips chapters its merge leaves unchanged.
- An unknown book is skipped only by `verify-coverage`. `seed-from-kjv` and `scaffold-source-book` throw on one.
- Zero correlated records is not an error in `collect-av`. It reports 0. `import-av-mirror` fails only when there is nothing to pair (n = 0). A run where every pair fails to parse succeeds and writes nothing.
- Text extraction in `collect-av` takes the first truthy candidate, not the first non-null one.
- In `seed-from-kjv` a baseline verse that is itself blank still counts as a fill (`SeedFromKjv.SeedChapter`). The target stays blank there, so a re-run writes and counts that chapter again.
- In `import-kjv` a book's catalog entry counts its non-array chapters too, although those are never written (`ImportKjv.ImportBookIs`).

## Model

| member | source | states |
|---|---|---|
| Common.Trim | scripts/collect-av.mjs:88 | `trim` leaves no whitespace at either end, and it is empty exactly when the input is all whitespace |
| Common.TrimEnd | scripts/collect-av.mjs:31 | `replace(/\s+$/, '')` drops exactly the maximal whitespace suffix, and what is left is a prefix of the input |
| Common.TrimPadded | scripts/import-av-txt.mjs:44 | trimming a trimmed text padded with whitespace gives that text back |
| Common.NatToStringRoundTrip | scripts/collect-av.mjs:51 | the verse key `String(n)` reads back as `n` through `Number` |
| Common.NatToStringInjective | scripts/collect-av.mjs:49 | different chapter or verse numbers give different key strings |
| Common.SplitLines | scripts/collect-av.mjs:41 | `split(/\r?\n/).filter(Boolean)` keeps only non-empty lines, and none of them holds a line feed |
| Common.SplitLinesJoinLf | scripts/collect-av.mjs:41 | non-empty lines without a line feed or a final CR, joined with LF, split back into the same lines in order |
| Common.SplitLinesJoinCrlf | scripts/collect-av.mjs:41 | non-empty lines without a line feed, joined with CRLF, split back into the same lines in order (the CR before each LF is removed) |
| Common.SplitJoin | scripts/seed-from-kjv.mjs:66 | pieces without a comma, joined with commas and split again, come back unchanged |
| Common.JoinSplit | scripts/seed-from-kjv.mjs:66 | splitting on a separator and joining again gives the input back |
| Common.NonEmptyOnly | scripts/seed-from-kjv.mjs:66 | `filter(Boolean)` keeps exactly the non-empty strings, each as often as it occurs |
| Common.NonEmptyOnlyAppend | scripts/seed-from-kjv.mjs:66 | filtering a concatenation is concatenating the filtered parts, so the order is kept |
| Common.CollectSome | scripts/import-av-txt.mjs:54-56 | the parse-and-skip loop returns the parsed values of the lines that parse, in line order |
| Common.GatherErr | scripts/collect-av.mjs:84-91 | a loop whose steps may throw ends in an error exactly when some step throws |
| Common.GatherOk | scripts/collect-av.mjs:84-91 | when no step throws, the loop's result is the steps' contributions, in order |
| Json.Or | scripts/collect-av.mjs:72 | JavaScript `or` of two values is truthy iff one operand is, and it is the first when that is truthy and the second otherwise |
| Json.Prop | scripts/collect-av.mjs:75 | optional member access yields a value only for an object that has that field |
| Json.Member | scripts/collect-av.mjs:85 | plain member access throws exactly on `null`, and otherwise agrees with optional access |
| Json.NonBlankIs | scripts/seed-from-kjv.mjs:29 | `nonEmpty` (and `isFilled`, scripts/verify-coverage.mjs:32) is false exactly for `undefined`, `null` and values whose string form is all whitespace |
| Store.GroupKeys | scripts/collect-av.mjs:47-52 | the grouped chapters are exactly the chapters of the records |
| Store.GroupVerses | scripts/collect-av.mjs:48-51 | a grouped chapter holds a verse exactly when some record names that chapter and verse |
| Store.GroupLastWins | scripts/collect-av.mjs:51 | a verse holds the text of the last record for it |
| Store.ChapterOrderLists | scripts/collect-av.mjs:54 | the chapters are visited in the `Map`'s insertion order, each exactly once |
| Store.GroupRecords | scripts/import-av-txt.mjs:54-64 | the bucket loop builds the grouping and its insertion order |
| Store.KeyOrder | scripts/seed-from-kjv.mjs:48 | `Object.entries` visits every key of a verse map exactly once |
| Store.WriteAll | scripts/collect-av.mjs:53-61 | writing every grouped chapter replaces those files wholesale, leaves the others alone, and counts one write per chapter |
| Locator.Locate | scripts/collect-av.mjs:32 | every reference the scanner reports is a match of `^(.+?)\s+(\d+):(\d+)$` |
| Locator.LocateNone | scripts/collect-av.mjs:32-33 | the scanner reports nothing exactly when the pattern has no match |
| Locator.LocateShortest | scripts/collect-av.mjs:32 | the reported book is no longer than the book of any match, and the chapter and verse are those of every match (lazy `+?`) |
| Locator.LocateExact | scripts/collect-av.mjs:32 | a match whose book does not end in whitespace is the one reported |
| Locator.LocateJoined | scripts/collect-av.mjs:32 | `book + " " + C + ":" + V` splits back into book, chapter and verse |
| CollectAv.Alias | scripts/collect-av.mjs:35 | only "Psalm" is rewritten, to "Psalms" |
| CollectAv.AliasIdempotent | scripts/collect-av.mjs:35 | the alias applied twice is the alias applied once |
| CollectAv.ParseTagNone | scripts/collect-av.mjs:31-33 | `parseTagToRef` returns `null`, never throwing, exactly when the right-trimmed tag has no match |
| CollectAv.ParseTagCanonical | scripts/collect-av.mjs:29-37 | the tag `B C:V` parses to the aliased `B` and the numbers of `C` and `V` |
| CollectAv.ParseTagTrailing | scripts/collect-av.mjs:31 | trailing whitespace on a tag does not change what it parses to |
| CollectAv.FirstTruthyIs | scripts/collect-av.mjs:74-78 | the text chain yields nothing iff no candidate is truthy; otherwise it yields the earliest truthy candidate |
| CollectAv.ResultEntryIs | scripts/collect-av.mjs:70-80 | a results line counts iff it parsed to a non-null value with a truthy id and some text; it is then recorded as that id with `String(text)` |
| CollectAv.LookupKeys | scripts/collect-av.mjs:79 | an id is in the lookup exactly when some results line records it |
| CollectAv.LookupLastWins | scripts/collect-av.mjs:79-80 | for a repeated id, the last results line wins |
| CollectAv.CollectOutputs | scripts/collect-av.mjs:68-81 | the results loop builds the id-to-text lookup |
| CollectAv.EntriesOf | scripts/collect-av.mjs:84 | iterating `map.entries` throws exactly on a `null` map or on entries that are not iterable |
| CollectAv.RecordFromIs | scripts/collect-av.mjs:86-90 | an entry gives a record iff it has a non-empty output and a string tag that parses; the record is that reference with the output; only a truthy non-string tag throws |
| CollectAv.TagPresent | scripts/collect-av.mjs:88 | the tag with its `''` fallback is always present, and it is a string unless the tag is a truthy non-string |
| CollectAv.RecordsOfIs | scripts/collect-av.mjs:83-91 | correlation fails iff some entry throws; otherwise the records are the entries' contributions in entry order, at most one per entry |
| CollectAv.Correlate | scripts/collect-av.mjs:83-91 | the correlation loop stops at the first throwing entry |
| CollectAv.Tsv | scripts/collect-av.mjs:95 | the TSV ends with a newline |
| CollectAv.TsvLines | scripts/collect-av.mjs:95 | when no record holds a newline, the TSV's lines are exactly the records' `Book C:V<TAB>text` lines, in order, plus the empty piece after the last newline |
| CollectAv.ImportToSite | scripts/collect-av.mjs:46-62 | every chapter of the records replaces its file, and the count is the number of distinct chapters |
| CollectAv.Run | scripts/collect-av.mjs:64-104 | the run fails exactly when the map or an entry throws; the TSV is produced only with `--writeTxt`, the files change only with `--import`, and the reported count is chapters or records accordingly |
| ImportAvMirror.ReplaceFirstIs | scripts/import-av-mirror.mjs:21 | `replace` with a string pattern changes only the first occurrence, and changes nothing without one |
| ImportAvMirror.DirLength | scripts/import-av-mirror.mjs:20 | the directory part ends at the last `/`: none follows it |
| ImportAvMirror.MapPathSameDir | scripts/import-av-mirror.mjs:19-23 | the map file sits in the mirror file's directory |
| ImportAvMirror.MapPathNoSuffix | scripts/import-av-mirror.mjs:21 | a base name without ".AV.mirror.txt" is kept as it is |
| ImportAvMirror.MapPathForMirrorName | scripts/import-av-mirror.mjs:19-23 | `dir/stem.AV.mirror.txt` maps to `dir/stem.AV.requests.jsonl.map.json` for any stem without a slash and without ".AV.mirror.txt" in it, dotted stems included |
| ImportAvMirror.NormalizeBook | scripts/import-av-mirror.mjs:25-28 | only "Psalm" is rewritten, to "Psalms" |
| ImportAvMirror.NormalizeBookIsAlias | scripts/import-av-mirror.mjs:25-28 | this tool's alias is the same function as `collect-av`'s |
| ImportAvMirror.TabStripAfterTrim | scripts/import-av-mirror.mjs:31 | after `trim`, stripping trailing tabs changes nothing |
| ImportAvMirror.ParseTagNone | scripts/import-av-mirror.mjs:30-35 | `parseTag` returns `null` exactly when the trimmed tag text has no match |
| ImportAvMirror.ParseTagFalsy | scripts/import-av-mirror.mjs:31 | a missing or falsy tag becomes `''` and never parses |
| ImportAvMirror.ParseTagAgrees | scripts/import-av-mirror.mjs:30-35 | on a string tag it agrees with `collect-av`'s parser applied to the trimmed tag |
| ImportAvMirror.MirrorEntries | scripts/import-av-mirror.mjs:41 | a non-array `entries` counts as empty; a `null` map throws |
| ImportAvMirror.PairRecordIs | scripts/import-av-mirror.mjs:51-57 | a pair throws iff its entry is `null`, gives nothing iff the tag does not parse, and otherwise gives the tag's reference with the trimmed line |
| ImportAvMirror.PairedRecordsIs | scripts/import-av-mirror.mjs:49-58 | pairing fails iff one of the first `n` entries is `null`; otherwise the records are the parsed pairs by index, and a skipped index does not shift later pairs |
| ImportAvMirror.PairUp | scripts/import-av-mirror.mjs:50-58 | the pairing loop stops at the first `null` entry |
| ImportAvMirror.MirrorKeyCollision | scripts/import-av-mirror.mjs:62 | as written, two chapters of a book whose name holds the key separator ("A" bar "5") are sent to the same file |
| ImportAvMirror.FileOfKeyAsWrittenAgrees | scripts/import-av-mirror.mjs:62 | for a book without the key separator, the as-written split finds the book and chapter |
| ImportAvMirror.ChapterOfKeyString | scripts/import-av-mirror.mjs:61-65 | splitting at the last separator reads every chapter key back as itself |
| ImportAvMirror.KeyStringInjective | scripts/import-av-mirror.mjs:54 | different chapters have different book-and-chapter key strings |
| ImportAvMirror.Run | scripts/import-av-mirror.mjs:37-70 | the run fails iff the map is `null`, there is nothing to pair, or a paired entry is `null`; otherwise n = min of the two lengths, at most one warning is given (exactly when the lengths differ), and every chapter found replaces its file and counts once |
| ImportAvTxt.NormalizeBook | scripts/import-av-txt.mjs:27-34 | "Psalm" and "Song of Songs" are aliased, and every other name stays as it is |
| ImportAvTxt.NormalizeBookIdempotent | scripts/import-av-txt.mjs:27-34 | the alias applied twice is the alias applied once |
| ImportAvTxt.MatchTail | scripts/import-av-txt.mjs:39 | a found tail has non-empty chapter, verse and text groups, and the text does not start with whitespace |
| ImportAvTxt.MatchTailFound | scripts/import-av-txt.mjs:39 | the chapter and verse groups are digit runs, and the text stays on one line |
| ImportAvTxt.TailSpans | scripts/import-av-txt.mjs:39 | where the tail scan accepts, the rest of the pattern matches from there: its groups are the chapter, verse and text the scan found |
| ImportAvTxt.TailAccepts | scripts/import-av-txt.mjs:39 | wherever the rest of the pattern matches after a book, the tail scan accepts |
| ImportAvTxt.FindBook | scripts/import-av-txt.mjs:39 | a match has a non-empty book after the leading whitespace, and the rest of the pattern matches after it |
| ImportAvTxt.FindBookSound | scripts/import-av-txt.mjs:39 | what the scanner reports is a match of the pattern, with the same lead and book |
| ImportAvTxt.FindBookShortest | scripts/import-av-txt.mjs:39 | every match with the longest lead is found by the scanner, and the scanner's book is no longer (lazy `+?`) |
| ImportAvTxt.LeadLongest | scripts/import-av-txt.mjs:39 | no match's leading `\s*` reaches past the leading whitespace |
| ImportAvTxt.FirstMatchExists | scripts/import-av-txt.mjs:39 | whenever the pattern matches, there is a match with the longest lead and then the shortest book |
| ImportAvTxt.FirstMatchFound | scripts/import-av-txt.mjs:39 | that match has the lead and book the scanner reports |
| ImportAvTxt.RecordOf | scripts/import-av-txt.mjs:41-46 | a record has a non-empty book, a positive chapter and verse, and a non-empty trimmed one-line text |
| ImportAvTxt.GroupsRecord | scripts/import-av-txt.mjs:41-46 | a record from the groups has a non-empty book, a positive chapter and verse, and a non-empty trimmed text |
| ImportAvTxt.GroupsRecordSome | scripts/import-av-txt.mjs:41-46 | groups with a non-empty trimmed book, positive numbers and a non-blank text give the aliased book, the numbers and the trimmed text |
| ImportAvTxt.ParseLine | scripts/import-av-txt.mjs:36-47 | a parsed line has a non-empty book, a positive chapter and verse, and a non-empty trimmed text |
| ImportAvTxt.ParseLineNoMatch | scripts/import-av-txt.mjs:39-40 | a line that the pattern does not match gives `null` |
| ImportAvTxt.ParseLineFirst | scripts/import-av-txt.mjs:39-46 | a line that matches gives the record built from the groups of the engine's match (`null` when a group is empty or a number is 0) |
| ImportAvTxt.ParseLineFormat | scripts/import-av-txt.mjs:36-46 | the line `B C:V<sep>T`, with whitespace around `B` and `T` and any whitespace separator holding a tab or a space, parses to the trimmed and aliased `B`, the numbers of `C` and `V` and the trimmed `T`, when no whitespace in `B` is followed by a digit |
| ImportAvTxt.ParseLineZero | scripts/import-av-txt.mjs:45 | the same line with chapter or verse 0 is rejected |
| ImportAvTxt.TsvLineParses | scripts/import-av-txt.mjs:36-46 | a line of `collect-av`'s TSV reads back as the record it came from, with this tool's alias |
| ImportAvTxt.MergeIs | scripts/import-av-txt.mjs:72 | the merge holds the keys of both maps; every bucket verse overwrites, and existing-only verses are kept |
| ImportAvTxt.MergeSeqAll | scripts/import-av-txt.mjs:67-80 | merging the buckets in any iteration order gives the same files |
| ImportAvTxt.MergedLoad | scripts/import-av-txt.mjs:71-76 | a chapter's new file is the merge when it changed, and the old file otherwise |
| ImportAvTxt.MergeRerun | scripts/import-av-txt.mjs:73-79 | merging the same buckets again rewrites no chapter and leaves the files as they are |
| ImportAvTxt.MergeAll | scripts/import-av-txt.mjs:66-80 | the merge loop writes exactly the changed chapters, and written + unchanged = number of buckets |
| ImportAvTxt.Run | scripts/import-av-txt.mjs:49-81 | the run parses the non-empty lines, groups them by chapter and merges them, with the written and unchanged counts |
| ImportKjv.NormalizeVerseText | scripts/import-kjv.mjs:25-28 | the normalized text has no whitespace at either end |
| ImportKjv.NormalizeVerseTextBlank | scripts/import-kjv.mjs:25-28 | the normalized text is `''` exactly for `null`, `undefined` and values the other scripts count as blank |
| ImportKjv.NormalizeVerseTextIs | scripts/import-kjv.mjs:25-28 | normalizing is idempotent, and the normalized text is blank exactly when the value is |
| ImportKjv.ChapterObjectIs | scripts/import-kjv.mjs:32-36 | an n-element array gives verses 1..n, where verse i+1 holds the normalized element i as a trimmed string |
| ImportKjv.WriteChapter | scripts/import-kjv.mjs:32-36 | the object-building loop builds that chapter object |
| ImportKjv.ChapterNumbersIs | scripts/import-kjv.mjs:43-47 | `chapterCountArray(n)` has length n, is strictly increasing and holds exactly 1..n |
| ImportKjv.ChapterCountArray | scripts/import-kjv.mjs:43-47 | the push loop builds `1..n` |
| ImportKjv.BookName | scripts/import-kjv.mjs:82 | the name throws on a `null` book, is always truthy, falls back through `name`, `book`, `abbrev` and ends at "Unknown" |
| ImportKjv.WriteChaptersAt | scripts/import-kjv.mjs:87-92 | chapter ci+1 is written exactly when its verses are an array; nothing else changes |
| ImportKjv.WriteBook | scripts/import-kjv.mjs:87-92 | the chapter loop of one book |
| ImportKjv.ImportBookIs | scripts/import-kjv.mjs:81-93 | a book without an array `chapters` is neither catalogued nor written; otherwise its entry is 1 to the number of chapters, and non-array chapters count but are not written |
| ImportKjv.ImportAllErr | scripts/import-kjv.mjs:81-93 | the book loop throws exactly when some book would |
| ImportKjv.ImportAllSticky | scripts/import-kjv.mjs:81-93 | once a book throws, later books change nothing |
| ImportKjv.ImportAllOthers | scripts/import-kjv.mjs:81-93 | chapter files of books that the data does not name are untouched |
| ImportKjv.ImportAllBooks | scripts/import-kjv.mjs:85 | every catalog entry is a list `1..n` |
| ImportKjv.UpdateCatalogIs | scripts/import-kjv.mjs:49-70 | `books` is replaced wholesale and other fields are kept; `versions` is created if missing and gains a KJV entry only if it has none; a primitive catalog or `versions` throws (strict mode), and an array catalog is kept as it is |
| ImportKjv.UpdateCatalogIdempotent | scripts/import-kjv.mjs:63-66 | updating an updated catalog with the same books changes nothing |
| ImportKjv.UpdateCatalogDefault | scripts/import-kjv.mjs:50-61 | an unreadable catalog falls back to the three default versions |
| ImportKjv.ImportAllStep | scripts/import-kjv.mjs:81-93 | each pass of the book loop applies one book to the state so far |
| ImportKjv.Run | scripts/import-kjv.mjs:72-97 | non-array data throws before anything is written; otherwise the books are imported in order, and the catalog is updated unless a book threw; the reported count is the number of books in `booksMap` |
| Catalog.ChaptersOf | scripts/seed-from-kjv.mjs:33-34 | a book has chapters exactly when the catalog lists it with a non-empty array |
| Catalog.BookListPlain | scripts/seed-from-kjv.mjs:64-66 | without one comma-holding argument, the arguments (or the default) are taken as given |
| Catalog.BookListPieces | scripts/seed-from-kjv.mjs:66 | every book split from a comma argument is non-empty, trimmed and free of commas |
| Catalog.BookListJoined | scripts/seed-from-kjv.mjs:66 | names joined with commas into one argument come back as the same list |
| SeedFromKjv.SeededIs | scripts/seed-from-kjv.mjs:48-53 | after seeding, the chapter has every baseline verse; blank or absent verses hold the baseline text; filled verses and verses outside the baseline are unchanged |
| SeedFromKjv.SeededNoBlanks | scripts/seed-from-kjv.mjs:47-55 | with nothing to fill, the chapter is left as it is |
| SeedFromKjv.SeededIdempotent | scripts/seed-from-kjv.mjs:48-52 | seeding a seeded chapter changes nothing |
| SeedFromKjv.SeedSeqAll | scripts/seed-from-kjv.mjs:48-53 | filling along any key order of the baseline gives the seeded chapter |
| SeedFromKjv.SeedChapter | scripts/seed-from-kjv.mjs:47-53 | the fill loop gives the seeded chapter, and `modified` is set iff some verse was blank |
| SeedFromKjv.SeedChaptersLoad | scripts/seed-from-kjv.mjs:41-59 | a listed chapter of the book is seeded from its baseline, with missing files read as `{}`; other chapters are unchanged |
| SeedFromKjv.SeedChaptersCount | scripts/seed-from-kjv.mjs:55-59 | `changed` counts exactly the chapters that had something to fill |
| SeedFromKjv.SeedChaptersTwice | scripts/seed-from-kjv.mjs:48-52 | seeding a book twice leaves every chapter as seeding it once does |
| SeedFromKjv.SeedBook | scripts/seed-from-kjv.mjs:31-61 | `seedBook` throws iff the catalog lacks the book or lists no chapters; otherwise it seeds every listed chapter |
| SeedFromKjv.SeedBooksFailed | scripts/seed-from-kjv.mjs:67-69 | the run fails iff some book is missing from the catalog; it stops at the first such book, after the earlier books are written |
| SeedFromKjv.SeedBooksOthers | scripts/seed-from-kjv.mjs:67-69 | chapters of books the run does not name are never touched |
| SeedFromKjv.SeedAll | scripts/seed-from-kjv.mjs:67-69 | the book loop seeds the books in order and stops at the first error |
| SeedFromKjv.Run | scripts/seed-from-kjv.mjs:63-70 | the books are the arguments, "Genesis" by default, with a single comma argument split |
| VerifyCoverage.FilledCount | scripts/verify-coverage.mjs:40-44 | have <= need; have == need iff every baseline verse is filled; have == 0 iff none is |
| VerifyCoverage.Have | scripts/verify-coverage.mjs:42-43 | `have` never exceeds the number of baseline verses |
| VerifyCoverage.HaveBaselineOnly | scripts/verify-coverage.mjs:43 | target verses outside the baseline never count towards `have` |
| VerifyCoverage.CountChapter | scripts/verify-coverage.mjs:40-44 | the counting loop gives need = number of baseline verses and have = number filled |
| VerifyCoverage.MissingSumZero | scripts/verify-coverage.mjs:44-45 | the missing counts sum to 0 iff no row misses a verse |
| VerifyCoverage.CoverageLines | scripts/verify-coverage.mjs:37-47 | one row per catalog chapter, in order; book total = book filled + the sum of the missing counts |
| VerifyCoverage.CoverageComplete | scripts/verify-coverage.mjs:34-49 | filled <= total; filled == total iff no row misses a verse, iff every baseline verse of the book is filled |
| VerifyCoverage.VerifyBook | scripts/verify-coverage.mjs:34-49 | the loop of `verifyBook` gives that report |
| VerifyCoverage.PercentRounds | scripts/verify-coverage.mjs:66 | the percentage in hundredths is the nearest hundredth of filled/total, rounding halves up |
| VerifyCoverage.PercentBounds | scripts/verify-coverage.mjs:73 | the percentage is at most 100 when filled <= total, 100 when total is 0 or everything is filled, and 0 when nothing is filled |
| VerifyCoverage.DetailsIs | scripts/verify-coverage.mjs:68-71 | a row is printed exactly when it misses a verse |
| VerifyCoverage.OutcomeOf | scripts/verify-coverage.mjs:59-64 | a book is skipped exactly when the catalog has no non-empty chapter list for it |
| VerifyCoverage.OutcomeBounds | scripts/verify-coverage.mjs:59-71 | a reported book shows at most 100% and prints only rows with a missing verse |
| VerifyCoverage.OutcomesAt | scripts/verify-coverage.mjs:58-72 | the run has one outcome per requested book, in order |
| VerifyCoverage.GrandComplete | scripts/verify-coverage.mjs:57-72 | grand filled <= grand total, with equality exactly when every non-skipped book is complete |
| VerifyCoverage.ReportBook | scripts/verify-coverage.mjs:59-66 | one book of the loop: skipped without a non-empty chapter list, otherwise its checked report |
| VerifyCoverage.CoverAll | scripts/verify-coverage.mjs:57-72 | the book loop gives the outcomes, with the grand totals over the non-skipped books |
| VerifyCoverage.Run | scripts/verify-coverage.mjs:51-75 | the books default to every catalog book, a single comma argument is split, and the grand percentage follows the same rule |
| ScaffoldSourceBook.ScaffoldedIs | scripts/scaffold-source-book.mjs:29-36 | afterwards every listed chapter has a file; existing files are unchanged, new ones are `{}`, and nothing else is created |
| ScaffoldSourceBook.ScaffoldedLoads | scripts/scaffold-source-book.mjs:35 | readers see no difference: a new placeholder reads like the missing file did |
| ScaffoldSourceBook.ScaffoldedIdempotent | scripts/scaffold-source-book.mjs:29-36 | scaffolding twice is scaffolding once |
| ScaffoldSourceBook.Run | scripts/scaffold-source-book.mjs:22-38 | an unknown book or an empty chapter list throws before anything is created; otherwise every missing listed chapter gets `{}`, and the reported count is the length of the chapter list |

## Left out

- root/app.js, the browser reader, is not part of this model.
- File-system calls, directory creation and JSON text formatting are left out. Files are map entries, and a write is a map update.
- A chapter file that exists but is not a JSON object is not modelled. A file that cannot be read or parsed reads as `{}`, as every reader here treats a missing file.
- Verse keys are canonical decimal numbers. Non-canonical keys such as "01", and keys such as `__proto__`, are not modelled.
- Catalog chapter lists are lists of naturals. An entry of another kind, including an empty list, is "no chapters".
- Catalog `versions` are modelled only in `import-kjv`.
- Method iteration orders are any order that lists each key once (`Store.ListsKeys`). No concrete `Object.keys` order is fixed, because no result depends on it. The one exception is the catalog's book order, which `verify-coverage` receives as `Catalog.keys`.
- `verify-coverage` sorts each chapter's verse numbers. The model counts in key order: the count does not depend on the order.
- The network download of `import-kjv` is left out. The downloaded data is given as a parameter.
- Command-line parsing, console output and `process.exit` are left out. Messages, warnings and the printed counts are returned values.
- The percentage's `Math.round` over floating point is left out. VerifyCoverage.Percent is exact rounding in integer hundredths, halves up. It can differ from the float result where the float product is inexact.
- Floats in JSON values are left out. Numbers are integers (`Json.JNum`).
- JavaScript strings are sequences of `char`, with no UTF-16 surrogate handling. Whitespace is the ECMAScript WhiteSpace and LineTerminator sets.
- ImportAvMirror.MapPathFromMirror: `path.dirname` and `path.join` normalisation is left out. This covers `.` segments, repeated or trailing slashes, and a path with no directory, which gives the bare name, as the model does. The model keeps the text before the last `/` and replaces within the rest.
- A missing or unparsable required input is fatal in every script (`main().catch` exits with status 1). This covers the request map and the results file of `collect-av`, the map and the mirror file of `import-av-mirror`, the export file of `import-av-txt`, and the catalog of `seed-from-kjv`, `scaffold-source-book` and `verify-coverage`. The model receives these inputs already read and parsed, so that error path does not exist in it.
- `Number` on a digit run of 2^53 or more rounds to a float, and `String` prints numbers of 1e21 or more in exponent form. DigitsToNat and NatToString are exact at every size.
- ImportAvMirror.Run writes each chapter under its own book and chapter, the corrected key split of the finding below. As written, the script splits the key at its first bar, so a book whose name holds a bar is written to a wrong file. ImportAvMirror.MirrorKeyCollision shows that case.
- MatchTail: its own contract states only the shape of a found tail. That it accepts exactly where the rest of the pattern matches is stated by ImportAvTxt.TailSpans and ImportAvTxt.TailAccepts.
- Book names are used as plain directory names. Every script builds the chapter path with `path.join` on the book name, so names that normalise alike ("Genesis", "Genesis/", "./Genesis") share one file, and a name with `/` or `..` reaches below or outside the source directory. The model keys files by the raw book string, and that path normalisation is not modelled.
- Concurrency and `async` ordering are left out. Every script is modelled as strictly sequential.

## Findings

| source | as written | input that shows it | evidently intended | confidence | as-written member | corrected member |
|---|---|---|---|---|---|---|
| scripts/import-av-mirror.mjs:62 | the chapter key joins book and chapter with a bar and is taken apart with `split` on the bar as `[book, chStr]`, so a book whose name holds a bar is written under the part before its first bar, with the wrong chapter | chapters 3 and 4 of the book named A, bar, 5 are both written to chapter 5 of book "A", the second overwriting the first | each chapter is written under its own book and chapter (split at the last bar, or keep book and chapter in the map value as `collect-av` does) | not executed | ImportAvMirror.MirrorKeyCollision | ImportAvMirror.ChapterOfKeyString |
