# Japanese text statistics and touch-to-scroll bridge — a verified model

This project models, in Dafny, the computational core of three small Python
tools:

- **`scroll.py`** — a WebSocket-to-wheel bridge. Each session turns touch-drag
  deltas into high-resolution wheel events on a virtual input device. It
  multiplies every delta by a gain of 6 and adds it to a residue. It writes the
  whole part (truncated toward zero) as a `REL_WHEEL_HI_RES` motion when that
  part is non-zero and keeps the fraction. Every message ends with a sync
  report. The model is module `Scroll` (`scroll.dfy`):
  - the device is a class `VirtualDevice` whose event queue is an append-only
    log;
  - the session loop is the method `WsHandler`;
  - both are proved against the pure session function `Run` and the event
    function `Emitted`.
- **`kanji_stats.py`** — character statistics over text files, modelled as
  module `KanjiStats` (`kanji_stats.dfy`). It covers:
  - the per-file classification loop into hiragana, katakana and kanji, with
    kanji counted per character (`ClassifyAndCountChars`);
  - the aggregation over files (`AggregateFiles`);
  - the top-kanji coverage series (`TopKanjiCoverage`, over a frequency
    ranking `MostCommon`);
  - the rank-250 lookup (`TopRankPoint`) and the whole analysis (`Analyze`);
  - the insertion of a style block before the first `</head>` of the
    generated page (`InjectStyle`).

  Python's `Counter` is a `multiset<char>`.
- **`count_uniq_kanji.py`** — the unique-kanji collector: the set of
  characters of the CJK Extension A and Unified Ideographs blocks found on any
  line of any readable file, and its sorted join. The model is module
  `UniqueKanji` (`count_uniq_kanji.dfy`). The collecting loop is the method
  `CountUniqueKanji`, proved against the pure function `Collected`.

Arithmetic is exact: Python floats are Dafny `real`s and Python ints are
unbounded `int`s, as they are in Python.

Three behaviours of the code are worth stating outright:

- **A message that does not parse** (`float()` raises on it) ends the
  WebSocket session, with nothing written for it (scroll.py:81-82): the
  handler has no exception handler around the conversion. `WsHandler`
  returns `raised` for this case.
- **Sync reports**: the device receives a sync report after *every* message,
  including one whose tick is zero (scroll.py:87).
- **Ten deltas of 0.1**: under exact arithmetic the ticks computed are
  `[0,1,0,1,1,0,1,0,1,1]`, six in all, with residue 0, as 10 × 0.6 = 6
  requires. `Scroll.TenthDeltas` proves this.

## Model

| member | source | states |
|---|---|---|
| Scroll.Trunc | scroll.py:83 | `int()` on a float truncates toward zero: the result has the argument's sign and lies within 1 of it, on the side of 0 |
| Scroll.Feed | scroll.py:82-86 | one message: the tick written plus the residue kept equals the old residue plus 6 × delta, and the residue lies strictly inside (-1, 1) |
| Scroll.FeedWrites | scroll.py:82-86 | the value written is trunc(acc + 6·delta); a write happens exactly when that sum is at least 1 in magnitude; the residue keeps the sum's sign |
| Scroll.ZeroDelta | scroll.py:82-86 | a delta of 0 leaves any reachable residue unchanged and yields a zero tick |
| Scroll.FeedOdd | scroll.py:82-86 | negating residue and delta negates both the tick and the new residue |
| Scroll.Run | scroll.py:80-87 | a session yields one tick per message, and after any message the residue lies strictly inside (-1, 1) |
| Scroll.FreshSession | scroll.py:80 | a fresh session has residue 0 and has written nothing |
| Scroll.RunConserves | scroll.py:80-87 | conservation: the sum of the ticks plus the final residue equals the starting residue plus 6 × the sum of the deltas |
| Scroll.RunAppend | scroll.py:81-87 | feeding a then b is feeding a + b: the second part continues from the residue the first leaves |
| Scroll.TickOfMessage | scroll.py:82-83 | the tick of message i is the truncation of the residue left by messages 0..i-1 plus 6 × delta i |
| Scroll.ZeroDeltaInSession | scroll.py:82-87 | a 0 delta anywhere in a session keeps the residue and adds a zero tick |
| Scroll.ZeroTickOnlySyncs | scroll.py:84-87 | a message with a zero tick produces a sync report and nothing else |
| Scroll.EmittedWheelTotal | scroll.py:84-87 | the values of the wheel writes in the log add up to the sum of the ticks |
| Scroll.Conservation | scroll.py:80-87 | on the device, after d1..dn from a fresh session: the wheel values written plus the residue equal 6·(d1+…+dn), so they are less than one tick from it |
| Scroll.OneSyncPerMessage | scroll.py:87 | the log holds exactly one sync report per message |
| Scroll.EmittedWellFormed | scroll.py:84-87 | every write is an EV_REL / REL_WHEEL_HI_RES motion with a non-zero value, with no button event, and is followed at once by a sync; a non-empty log ends with a sync |
| Scroll.SignSymmetry | scroll.py:82-83 | feeding the negated deltas from the negated residue negates every tick and the final residue |
| Scroll.WholeDeltas | scroll.py:80-87 | four deltas of 1.0 write 6, 6, 6, 6 and leave residue 0 |
| Scroll.FiveTenths | scroll.py:80-87 | five deltas of 0.1 give ticks 0, 1, 0, 1, 1 and residue 0 |
| Scroll.TenthDeltas | scroll.py:80-87 | ten deltas of 0.1 give ticks 0,1,0,1,1,0,1,0,1,1 (six in all) and residue 0 |
| Scroll.VirtualDevice.constructor | scroll.py:71 | the device declares REL_WHEEL_HI_RES on EV_REL and BTN_LEFT, BTN_RIGHT on EV_KEY, and starts with an empty event log |
| Scroll.VirtualDevice.Write | scroll.py:85 | a write appends one relative-motion event and nothing else |
| Scroll.VirtualDevice.Syn | scroll.py:87 | a sync appends one sync report and nothing else |
| Scroll.Parsed | scroll.py:81-82 | the deltas processed are exactly the messages before the first one that does not parse; there is such a message exactly when some message does not parse |
| Scroll.OnMessage | scroll.py:82-87 | the loop body: the new residue is Feed's, and the log grows by the write (when the tick is non-zero) and a sync |
| Scroll.WsHandler | scroll.py:77-88 | a session appends to the device exactly Emitted(Run(0, parsed deltas)) and ends with Run's residue; it raises exactly when some message does not parse |
| UniqueKanji.LinesKanjiMembers | count_uniq_kanji.py:16-18 | a character is collected from a file exactly when it is a kanji on one of the lines read from it |
| UniqueKanji.CollectedMembers | count_uniq_kanji.py:11-24 | a character is in the result exactly when some given file contributes it |
| UniqueKanji.CollectedExactly | count_uniq_kanji.py:7-24 | the result holds exactly the kanji (`IsKanji`, the pattern at count_uniq_kanji.py:7-9) that occur on some line of some opened file: nothing outside the two blocks and nothing from a missing file |
| UniqueKanji.SameFilesSameResult | count_uniq_kanji.py:14-18 | file order and repeated files do not change the result |
| UniqueKanji.PermutationInvariant | count_uniq_kanji.py:14-18 | a permutation of the file list gives the same set |
| UniqueKanji.MissingFileContributesNothing | count_uniq_kanji.py:19-20 | a missing file contributes nothing, and the files after it are still processed |
| UniqueKanji.MoreFilesMoreKanji | count_uniq_kanji.py:14-18 | adding files never removes a character from the result |
| UniqueKanji.MoreLinesMoreKanji | count_uniq_kanji.py:17-18 | adding lines never removes a character from the result |
| UniqueKanji.CountUniqueKanji | count_uniq_kanji.py:11-24 | the nested loops compute exactly Collected(files), and every member is a kanji |
| UniqueKanji.SortedJoin | count_uniq_kanji.py:36 | the joined string is strictly ascending by code point, holds exactly the members of the set, and has one character per member |
| UniqueKanji.RunScript | count_uniq_kanji.py:26-36 | with no file named it is a usage error; otherwise the count is the number of distinct kanji and equals the length of their sorted string |
| KanjiStats.ClassifyRanges | kanji_stats.py:33-38 | for `Classify` (the if/elif chain): each category holds exactly the characters of its own range (the ranges are disjoint, so the order of the tests does not matter), and other characters are in none |
| KanjiStats.Select | kanji_stats.py:30-38 | the characters selected for a category all belong to it and are no more than the text's characters |
| KanjiStats.SelectCount | kanji_stats.py:30-38 | selection keeps every occurrence of a character of the category and none of any other character |
| KanjiStats.Partition | kanji_stats.py:30-38 | the three categories and the uncounted characters split the text: each character is counted once, or not at all when outside the ranges |
| KanjiStats.SelectAppend | kanji_stats.py:30-38 | selecting from two texts in turn is selecting from their concatenation |
| KanjiStats.TallyKanji | kanji_stats.py:37-38 | each kanji key counts that kanji's occurrences; a character outside the kanji range has no key |
| KanjiStats.TallyTotal | kanji_stats.py:40 | the total is hiragana + katakana + the sum of the kanji counts, which is the text's length less its uncounted characters |
| KanjiStats.TallyNone | kanji_stats.py:30-40 | the total is zero exactly when no character of the text lies in any of the three ranges |
| KanjiStats.ClassifyAndCountChars | kanji_stats.py:24-47 | the counting loop computes exactly Tally(text) |
| KanjiStats.Add | kanji_stats.py:322-326 | adding a file's counts field by field keeps total = hiragana + katakana + kanji instances |
| KanjiStats.TallyAppend | kanji_stats.py:320-326 | the counts of two texts added together are the counts of the texts read as one |
| KanjiStats.AggregationOrderFree | kanji_stats.py:302-326 | the totals do not depend on the order in which the files are named: any reordering of the same files gives the same counts |
| KanjiStats.EmptyTally | kanji_stats.py:293-298 | the initial totals are the counts of the empty text |
| KanjiStats.AggregateFiles | kanji_stats.py:293-326 | missing and unreadable files are skipped; the totals are the counts of all readable text read as one, and stay consistent |
| KanjiStats.EnumerationTotals | kanji_stats.py:61-67 | a ranking's counts add up to the number of kanji instances, and it has one entry per distinct kanji |
| KanjiStats.MostCommon | kanji_stats.py:61 | the result lists every kanji of the map once, with its count, from the most to the least frequent |
| KanjiStats.PercentBounds | kanji_stats.py:84 | for `Percent`: a part of the whole is between 0 and 100 percent, and the whole is 100 |
| KanjiStats.CoverageShape | kanji_stats.py:69-89 | coverage points of a ranking start at 0, never decrease, end at 100, and number one more than the distinct kanji |
| KanjiStats.TopKanjiCoverage | kanji_stats.py:49-91 | empty map gives [0], [0.0]; otherwise X = [0, 1, …, n] for n distinct kanji (so the fix-up at lines 87-89 never fires), and Y is the cumulative share of a most-frequent-first ranking: it starts at 0, never decreases, and ends at 100 |
| KanjiStats.CoverageBounded | kanji_stats.py:84 | every coverage point lies between 0 and 100 percent |
| KanjiStats.IndexOf | kanji_stats.py:364 | `list.index`: the first position holding the value, or none when the value is absent |
| KanjiStats.TopRankPoint | kanji_stats.py:360-368 | the reported point is the first one of rank 250 when there is one, otherwise the last point with its rank |
| KanjiStats.TopRankOfCoverage | kanji_stats.py:359-372 | on a coverage series of n distinct kanji, the reported point is rank min(250, n) |
| KanjiStats.Analyze | kanji_stats.py:330-375 | the totals are the counts of all readable text; no Japanese character stops the analysis; no kanji gives no series; otherwise X is 0, 1, …, n for the n distinct kanji, Y is the cumulative coverage of some most-frequent-first ranking of the totals' kanji, and the reported point is rank min(250, n) with its coverage between 0 and 100 |
| KanjiStats.FindFirst | kanji_stats.py:112 | the leftmost occurrence of the pattern, or none when it occurs nowhere |
| KanjiStats.ReplaceInserts | kanji_stats.py:112 | for `ReplaceFirst` (`str.replace` with a count of 1): replacing the first `</head>` by a block followed by `</head>` inserts the block just before that tag |
| KanjiStats.InsertBeforeHeadClose | kanji_stats.py:112 | a page without `</head>` is unchanged; otherwise the block is inserted just before its first `</head>` |
| KanjiStats.InsertionRemovable | kanji_stats.py:112 | the insertion adds exactly the block at that position and changes nothing else of the page |
| KanjiStats.InsertedBeforeFirstHeadClose | kanji_stats.py:111-112 | a block that starts and ends with a line break and has no letter h cannot form a `</head>`, so after the insertion the page's first `</head>` is the original one, just after the block |
| KanjiStats.StyleBlockShape | kanji_stats.py:102-109 | the style block has 82 characters, starts and ends with a line break, and contains no letter h |
| KanjiStats.StyleBeforeFirstHeadClose | kanji_stats.py:102-112 | for `InjectStyle`: the style lands just before the page's first `</head>`, which stays the first `</head>` of the result |
| KanjiStats.NoHeadCloseUnchanged | kanji_stats.py:112 | a page without `</head>` is left as it is |

## Left out

- The aiohttp application, its routes, the HTML/JavaScript page and the port binding (scroll.py:6-69, 74-79, 88-92). They are server plumbing.
- The creation of the evdev `UInput` device (scroll.py:71). It is modelled only by `VirtualDevice`'s declared capabilities and its event log; the operating system's side of the device is not modelled.
- Concurrency: several WebSocket sessions share the one device. The model runs one session at a time.
- Scroll.Trunc: models `int()` on an exact real, not on an IEEE double. Rounding of `acc` is not modelled.
- Scroll.OnMessage: the width of the device's event value is not modelled. The evdev write takes a C `int` and the kernel's event value is 32 bits wide. A tick outside ±(2^31 − 1) raises at scroll.py:85 and ends the session with no write, no `acc -= ia` and no sync. The model writes the tick and continues. Likewise, a finite delta whose scaled sum overflows the double range makes `acc` infinite, and `int()` raises at scroll.py:83. The model computes that tick exactly.
- Scroll.Parsed: what `float()` accepts is not modelled; the messages arrive already classified. `nan` and `inf` are treated like text that does not parse, because `int()` raises on them before anything is written. Message types other than text are not distinguished.
- Plotting: Plotly figures, the numpy transform with its epsilon, and opening the browser (kanji_stats.py:121-272, 377-385).
- File I/O. `main` and `inject_black_body_style` read and write files; the model gives each file as a value: missing, unreadable, or its content. Unreadable files of every kind (decoding errors and other exceptions, kanji_stats.py:313-318) are one case. The file read and write around line 112, and its exception handler, are not part of this model; only the string step is.
- Argument parsing and all printed output, including the percentage table (kanji_stats.py:340-350). argparse's `nargs='+'` demands at least one file; `Analyze` accepts an empty list and reports no Japanese characters for it.
- The unused constants `TOP_KANJI_SET` and `TOP_KANJI_COUNT` (kanji_stats.py:19-20).
- KanjiStats.MostCommon: the order among kanji of equal frequency is left open. `Counter.most_common` keeps first-insertion order for ties, which the model does not track.
- KanjiStats.TopKanjiCoverage: the Y series is stated for *some* most-frequent-first ranking (any tie order), because `MostCommon` leaves the tie order open. The cumulative counts therefore match the source's up to the order of equal counts.
- KanjiStats.Percent: percentages are exact reals, without float rounding of the division.
- The regex engine of `count_uniq_kanji.py`: the pattern is the range predicate `IsKanji`. Files are sequences of already-decoded lines. A file that fails part-way keeps the lines read before the failure (`Opened(lines, failed)`).
- The usage message and `sys.exit(1)` (count_uniq_kanji.py:27-29) become the `usageError` result of `RunScript`.
- `seccomp/gen_filter.c`: a wrapper that prints a libseccomp filter; it has no logic of its own.
