# cetatenie-scrapper, modelled in Dafny

This project models the algorithmic core of a scraper for the Romanian citizenship
authority's site (`cetatenie.just.ro`). It also proves properties of that model.

- **Identifier-line extraction** (`ParserPDF.extract_numbers`): the first
  `(digits/digits)` order number of each line of a PDF's text layer.
- **Font-heuristic table reconstruction**:
  - the header pass (`_find_columns_for_dosar`): it collects the bold spans of the
    first page, then joins each header that ends in a space with the next one by
    mutating the list while it is being iterated;
  - the body pass (`_find_content_for_dosar`): the non-bold spans of each block are
    stripped and joined with `$` into rows;
  - `extract_dosar_data`, which stamps each row as a `Dosar`.
- **The crawl diff filter** of `ParserCetatenie.parse_articoluls`:
  - the check of each category key (`articolul_<n>`);
  - the page request for the key;
  - the walk of the index lists. An item becomes a download task when it has an
    anchor, its label is new, it holds a `%d.%m.%Y` date that `strptime` accepts,
    the date is at most four years old, and it has a link.
- **The tabular source** (`ParserDosars`):
  - the default article numbers;
  - the record links of a panel;
  - the six-year filter on `int(year)`;
  - the final flatten of the per-article, per-document rows.
- **The retry counter** of the `aiohttp_session` decorator. Each application of the
  decorator holds one counter, shared by all invocations and never reset.
- **`dump_without_null`** for both generations of the record types
  (`app_types.py`, `types.py`).

## Modules

| File | Module | Contents |
|---|---|---|
| `common.dfy` | `Common` | `Option` and `Result`; `PyError`, the Python exceptions the core raises |
| `text.dfy` | `Text` | the `str` operations used: `isspace`, `isdigit`, `int` of digits, `strip`, `lower`, `split`/`join`, `endswith` |
| `search.dfy` | `Search` | leftmost-match search and maximal digit runs, the part of `re.findall(...)[0]` shared by both patterns |
| `identifiers.dfy` | `Identifiers` | `extract_numbers` |
| `layout.dfy` | `Layout` | pages of blocks of lines of spans, as PyMuPDF's `extractDICT` gives them; the bold test |
| `headers.dfy` | `Headers` | the header pass: the in-place loop exactly as written, and the pairing it is meant to perform |
| `body.dfy` | `Body` | the body pass and `extract_dosar_data` |
| `dates.dfy` | `Dates` | proleptic Gregorian dates and `toordinal`; the `\d+\.\d+\.\d+` match; `strptime("%d.%m.%Y")` and its round trip with `strftime`; the four-year test |
| `crawl.dfy` | `Crawl` | the key loop, list loop and item loop of `parse_articoluls` |
| `dosars.dfy` | `Dosars` | `parse_dosars` / `_parse_dosars` up to the downloads, and the final flatten |
| `retry.dfy` | `Retry` | the decorator's counter, as a class with the counter as a field |
| `fielddict.dfy` | `FieldDict` | `dict(model)` as a list of named fields; the delete loop |
| `app_types.dfy`, `legacy_types.dfy` | `AppTypes`, `LegacyTypes` | the record types and their dumps |

## Inputs the model takes as parameters

- The text layer of a PDF: a string.
- A PDF's layout: `seq<Page>`.
- Whether a file exists: a `bool`.
- An HTML page:
  - the crawl's index page is a `Listing`, where `NoContentBlock` stands for a missing
    content `div`;
  - the site is a `map` from URL to page;
  - a panel's items are `Option<RecordAnchor>`s.
- The clock:
  - `now` is today's proleptic Gregorian day number in the crawl;
  - `nowYear` is the current year in the tabular source.
- The callee behind the retry decorator: `callee(k)` is the outcome of its `k`-th call.

Two conversions are exact:

- `(now - article_date).days` for a timestamp taken on day `now` and a date at midnight
  is `now - Ordinal(date)`.
- For the positive divisor 365, Python's `//` and Dafny's `/` agree.

## Model

| member | source | states |
|---|---|---|
| Identifiers.IsIdentifier | bubble_parser/parser.py:314 | defines the text a match of `\(\d+/\d+\)` can be: an opening parenthesis, a digit run, a slash, a digit run and a closing parenthesis |
| Identifiers.IdentifierAtIff | bubble_parser/parser.py:311-315 | a match of `\(\d+/\d+\)` is found at a position exactly when an identifier-shaped text (parenthesis, digits, slash, digits, parenthesis) occurs there |
| Identifiers.FirstIdentifier | bubble_parser/parser.py:311-315 | defines `re.findall(r"\(\d+/\d+\)", line)[0]` of one line as the leftmost identifier match, or nothing when the list is empty |
| Identifiers.NumbersOfLines | bubble_parser/parser.py:311-315 | defines the comprehension: the first identifier of each line that has one, in line order |
| Identifiers.ExtractNumbers | bubble_parser/parser.py:309-316 | defines `extract_numbers` on the text layer: split on `"\n"`, then the first identifier of each line |
| Identifiers.FirstIdentifierSpec | bubble_parser/parser.py:311-315 | `findall(...)[0]` is the leftmost identifier of the line; when the list is empty, no slice of the line is an identifier |
| Identifiers.ExtractNumbersFromPdf | bubble_parser/parser.py:304-316 | a missing file, and only a missing file, raises `FileNotFoundError`; otherwise the result is `ExtractNumbers` of the text layer, and every element is identifier-shaped |
| Identifiers.ExtractedAreIdentifiers | bubble_parser/parser.py:310-316 | at most one identifier per line, each of them identifier-shaped |
| Identifiers.NumbersOfLinesAppend | bubble_parser/parser.py:310-316 | lines contribute independently and in order |
| Identifiers.ExtractNumbersAtNewline | bubble_parser/parser.py:310 | text on either side of a line break contributes independently, in order |
| Identifiers.ExtractNumbersOneLine | bubble_parser/parser.py:311-315 | a single line gives its first identifier, or nothing (the `filter(None, ...)`) |
| Identifiers.OrderLineExample | bubble_parser/parser.py:311-315 | the line `12. (4562/2021)` yields `(4562/2021)` |
| Search.FirstFrom | bubble_parser/parser.py:193 | the leftmost position where the pattern matches, and no match before it; none when no position matches |
| Search.FirstFromAt | bubble_parser/parser.py:193 | a match with none before it is the one found |
| Search.DigitRun | bubble_parser/parser.py:193 | defines the length of the greedy `\d+` run starting at a position |
| Search.DigitRunMaximal | bubble_parser/parser.py:193 | `\d+` is greedy: the run is all digits and is not followed by a digit |
| Search.DigitRunExact | bubble_parser/parser.py:193 | a digit run followed by a non-digit is the greedy run |
| Layout.BlocksSpans | bubble_parser/parser.py:322-326 | defines the iteration order of the comprehension: block, then line, then span |
| Layout.BlocksSpansAppend | bubble_parser/parser.py:322-328 | spans are read in block, line, span order |
| Layout.IsBold | bubble_parser/parser.py:327 | defines the bold test `span["font"].lower().count("bold")` as a non-zero count |
| Headers.BoldTexts | bubble_parser/parser.py:322-328 | defines the comprehension that builds `columns`: the texts of the bold spans, in order |
| Headers.BoldTextsAppend | bubble_parser/parser.py:322-328 | the bold filter distributes over concatenation |
| Headers.BoldTextsSingle | bubble_parser/parser.py:327 | a span contributes its text exactly when `font.lower().count("bold")` is non-zero |
| Headers.IndexOf | bubble_parser/parser.py:330 | `list.index`: the first position that holds the value |
| Headers.Joined | bubble_parser/parser.py:332 | defines the entry a wrapped header becomes: `f"{c.strip()} {columns.pop(i+1).strip()}"` |
| Headers.MergeLoop | bubble_parser/parser.py:329-333 | defines the fix-up loop as Python runs it: iteration by position over the mutated list, `index` finding the first equal entry, the join and `pop(i+1)`, and `IndexError` when the popped position is past the end |
| Headers.Columns | bubble_parser/parser.py:318-333 | defines the header pass of a document: `IndexError` without pages, otherwise the fix-up loop on the first page's bold span texts |
| Headers.MergePairs | bubble_parser/parser.py:329-333 | defines the pairing the loop is meant to perform: each entry ending in a space joined with the next, left to right, `IndexError` for a wrapped last entry |
| Headers.MergeHeaders | bubble_parser/parser.py:329-333 | the in-place loop over the mutated list computes the iteration `MergeLoop` defines, including the `IndexError` of `pop(i+1)` past the end |
| Headers.FindColumns | bubble_parser/parser.py:318-333 | a document without pages raises `IndexError` at `pages[0]`; otherwise the loop runs on the bold spans of the first page |
| Headers.MergeLoopIsPairing | bubble_parser/parser.py:329-333 | when no bold span strips to `""`, the in-place loop performs exactly the left-to-right pairing of each entry ending in a space with the next |
| Headers.MergePairsOfGroups | bubble_parser/parser.py:329-333 | any reading of the spans as headers (one span, or a span ending in a space and its continuation) is rendered back by the pairing |
| Headers.MergePairsGroups | bubble_parser/parser.py:329-333 | when the pairing succeeds, its input is a sequence of such headers and the output is their rendering |
| Headers.MergePairsError | bubble_parser/parser.py:332 | `IndexError` is raised only when the last entry ends in a space; it is always raised when that entry is alone or follows an entry that does not end in a space |
| Headers.JoinedNotWrapped | bubble_parser/parser.py:332 | a joined header with a non-blank continuation does not end in a space |
| Headers.BlankContinuationDivergence | bubble_parser/parser.py:329-333 | on `["A ", " ", "A ", "x"]`, the loop as written gives `["A A", "x"]` while the pairing gives `["A ", "A x"]` |
| Headers.NrCrtExample | bubble_parser/parser.py:329-333 | `["Nr. ", "crt."]` becomes `["Nr. crt."]` |
| Headers.MergeTwo | bubble_parser/parser.py:329-333 | two entries, the first wrapped, give one joined entry |
| Headers.PairsOfFour | bubble_parser/parser.py:329-333 | four entries, the first and third wrapped, give two joined entries |
| Text.IsDigitString | bubble_parser/parser.py:155 | defines `str.isdigit()` on ASCII digits: non-empty and all digits |
| Text.DigitsValue | bubble_parser/parser.py:163 | defines `int` of a digit string: its decimal value, read left to right |
| Text.Lower | bubble_parser/parser.py:327 | defines `str.lower()` on ASCII letters, character by character |
| Text.Contains | bubble_parser/parser.py:327 | defines `count("bold")` being non-zero: the text occurs at some position |
| Text.Join | bubble_parser/parser.py:353 | defines `"$".join(...)`: the pieces with the separator between consecutive ones |
| Text.Split | bubble_parser/parser.py:310 | defines `str.split` on a one-character separator: the pieces between separators, at least one |
| Text.LastPiece | bubble_parser/parser.py:155 | defines `split(sep)[-1]` |
| Text.Strip | bubble_parser/parser.py:332 | the result neither starts nor ends with whitespace |
| Text.StripIsSlice | bubble_parser/parser.py:332 | `strip` keeps one contiguous slice of its input |
| Text.TrimLeftDropsSpaces | bubble_parser/parser.py:350 | everything removed at the front is whitespace |
| Text.TrimRightDropsSpaces | bubble_parser/parser.py:350 | everything removed at the back is whitespace |
| Text.SplitJoin | bubble_parser/parser.py:310 | joining the pieces of a split with the separator gives back the input |
| Text.SplitPiecesLackSeparator | bubble_parser/parser.py:310 | no piece of a split contains the separator |
| Text.LastPieceIsSuffix | bubble_parser/parser.py:155 | `split(sep)[-1]` is a suffix of the key and contains no separator |
| Body.FindContent | bubble_parser/parser.py:335-359 | the page loop, block loop, line loop and span loop compute `Content`: the header pass (its errors propagate), then the rows of each page in order |
| Body.HasBoldSpan | bubble_parser/parser.py:344-346 | defines the test that skips a line: any of its spans is bold |
| Body.StrippedTexts | bubble_parser/parser.py:349-351 | defines what the span loop appends: the stripped text of each span, one cell per span, in order |
| Body.LineCells | bubble_parser/parser.py:343-351 | defines what one line appends: nothing when any of its spans is bold, otherwise its stripped span texts |
| Body.LinesCells | bubble_parser/parser.py:343-351 | defines what the lines of a block append to `line_content`, in line order |
| Body.BlockCells | bubble_parser/parser.py:342-351 | defines what one block appends to `line_content` before the join |
| Body.ScanFrom | bubble_parser/parser.py:342-357 | defines the block loop of a page from a given accumulator: each block adds the cells of its non-bold lines, a non-empty `$`-join is emitted and clears the accumulator, an empty one keeps it |
| Body.PageRows | bubble_parser/parser.py:339-357 | defines the rows of one page: the block loop from an empty accumulator |
| Body.BodyRows | bubble_parser/parser.py:339-357 | defines the rows of a document: the rows of each page, in page order |
| Body.Content | bubble_parser/parser.py:335-359 | defines `_find_content_for_dosar`: the header pass (its errors propagate), then the document's rows |
| Body.ScanPage | bubble_parser/parser.py:341-357 | the block loop of one page starts with an empty accumulator and computes the page's rows |
| Body.CollectLines | bubble_parser/parser.py:343-351 | the accumulator gains the stripped text of each span of each non-bold line, in order |
| Body.CollectSpans | bubble_parser/parser.py:349-351 | the span loop appends the stripped text of every span of the line, one per span, in order |
| Body.StrippedTextsAt | bubble_parser/parser.py:349-351 | each cell is its span's stripped text |
| Body.ExtractDosarData | bubble_parser/parser.py:361-372 | a missing file raises `FileNotFoundError`; otherwise header errors propagate, and there is one `Dosar` per row in order, holding the row and the caller's article and year |
| Body.Stamp | bubble_parser/parser.py:369-372 | one `Dosar` per row, in order, with `raw_dosar` the row and the other fields defaulted |
| Body.ScanRowsNonEmpty | bubble_parser/parser.py:353-356 | no emitted row is the empty string, and a page emits at most one row per block |
| Body.BodyRowsNonEmpty | bubble_parser/parser.py:353-356 | no row of the document is the empty string |
| Body.BodyRowsAppend | bubble_parser/parser.py:339-341 | rows keep page order, and the accumulator does not carry across pages |
| Body.LinesCellsAppend | bubble_parser/parser.py:343-351 | the cells of two runs of lines are those of the first, then the second |
| Body.BoldLineIgnored | bubble_parser/parser.py:344-347 | a line containing any bold span contributes nothing |
| Body.ScanByCells | bubble_parser/parser.py:342-357 | rows depend on the blocks only through the cells they contribute |
| Body.ScanWithoutCarry | bubble_parser/parser.py:353-357 | when every block's own cells join to a non-empty text, the rows are exactly the blocks' joins |
| Body.ScanCarries | bubble_parser/parser.py:353-357 | a block whose accumulated cells join to `""` is not emitted, and those cells (none, or one empty cell) carry into the next block |
| Body.OneLineBlock | bubble_parser/parser.py:343-351 | a block of one plain line contributes the stripped texts of its spans |
| Body.RowExample | bubble_parser/parser.py:349-356 | spans `"1"` and `"Popescu Ion"` on one plain line give the row `"1$Popescu Ion"` |
| Body.CarryExample | bubble_parser/parser.py:353-357 | a block whose only span strips to `""` is not emitted, and its empty cell leads the next row: `"$a"` |
| Dates.IsLeap | bubble_parser/parser.py:197-200 | defines the proleptic Gregorian leap year: divisible by 4, and not by 100 unless by 400 |
| Dates.ValidDate | bubble_parser/parser.py:197-200 | defines what `datetime` accepts: a year from 1 to 9999, a month from 1 to 12, a day within the month |
| Dates.DaysInMonth | bubble_parser/parser.py:197-200 | every month has 28 to 31 days, and 29 exactly for February of a leap year |
| Dates.DaysBeforeMonthYear | bubble_parser/parser.py:197-200 | a year has 366 days when it is a leap year, 365 otherwise |
| Dates.DaysBeforeNextYear | bubble_parser/parser.py:203-205 | the day count across years follows the same leap-year rule |
| Dates.NextDay | bubble_parser/parser.py:203-205 | the day after a valid date is valid |
| Dates.NextDayOrdinal | bubble_parser/parser.py:203-205 | consecutive days have consecutive day numbers, so subtracting dates counts days |
| Dates.FirstOrdinal | bubble_parser/parser.py:203-205 | 1 January of year 1 is day 1, as in `date.toordinal` |
| Dates.Ordinal | bubble_parser/parser.py:203-205 | defines `date.toordinal()`: days in the earlier years and months, plus the day of the month |
| Dates.RunThenDot | bubble_parser/parser.py:193 | a non-empty greedy digit run followed by a dot, with its length |
| Dates.DateTextAtIff | bubble_parser/parser.py:193 | the match found at a position is exactly the greedy match of `\d+\.\d+\.\d+` there |
| Dates.FindDateSpec | bubble_parser/parser.py:193-195 | `findall(...)[0]` is the leftmost match; an empty `findall` means no position matches |
| Dates.FindDate | bubble_parser/parser.py:193-195 | defines `re.findall(r"\d+\.\d+\.\d+", text)[0]` as the leftmost greedy match, or nothing when the list is empty |
| Dates.FormatMatches | bubble_parser/parser.py:197-200 | defines the match of `_strptime`'s `%d.%m.%Y` pattern on the three digit runs: day and month of one or two digits in range, a year of exactly four digits |
| Dates.Strptime | bubble_parser/parser.py:197-200 | success gives a valid calendar date; failure is `ValueError` |
| Dates.StrptimeIff | bubble_parser/parser.py:197-200 | `strptime` gives date `d` exactly when `d` is a valid date and the text is what `strftime("%d.%m.%Y")` prints for `d`, where a day or month below 10 may also be written without its leading zero |
| Dates.Format | bubble_parser/parser.py:237 | defines `dt.strftime("%d.%m.%Y")` for four-digit years: day and month zero-padded to two digits, the year to four |
| Dates.Pad | bubble_parser/parser.py:237 | zero-padding gives exactly `width` digits |
| Dates.PadValue | bubble_parser/parser.py:237 | the padded digits read back as the number |
| Dates.StrptimeFormat | bubble_parser/parser.py:197-237 | `strptime(strftime(d, "%d.%m.%Y"), "%d.%m.%Y") == d` for four-digit years |
| Dates.TooOldIff | bubble_parser/parser.py:203-206 | `(now - d).days // 365 > 4` holds exactly when the date is 1825 or more days old |
| Dates.TooOld | bubble_parser/parser.py:203-206 | defines the age test `(now - article_date).days // 365 > 4` on day numbers |
| Crawl.ArticolulNum | bubble_parser/parser.py:154-163 | a key passes exactly when the text after its last `_` is a non-empty digit string, and then its value is the article number; otherwise `TypeError` |
| Crawl.ArticolulUrl | bubble_parser/parser.py:88-165 | only articles 10 and 11 have a page; any other number raises `KeyError` |
| Crawl.KeyExamples | bubble_parser/parser.py:154-163 | `"articolul_10"` and `"10"` name article 10; `"articolul_"` and `"articolul_1a"` raise `TypeError` |
| Crawl.JudgeEmits | bubble_parser/parser.py:183-216 | an item becomes a task exactly when it has an anchor, its label is not known, its text has a date that parses and is not too old, and it has a link; the task holds the link, the date, the article and the label |
| Crawl.Judge | bubble_parser/parser.py:183-216 | defines what one item does, checks in source order: skipped without an anchor, with a known label or without a date match; `ValueError` when `strptime` fails; skipped when too old; `KeyError` without `href`; otherwise a task |
| Crawl.ItemsTasks | bubble_parser/parser.py:179-216 | defines the item loop of one list: the tasks of its items, in order, the first raising item ending the run |
| Crawl.ListsTasks | bubble_parser/parser.py:174-216 | defines the list loop of one page: the tasks of its lists, list after list |
| Crawl.CrawlFrom | bubble_parser/parser.py:154-216 | defines the key loop: each key's check, request and tasks, in dict order, the first error ending the run, with the pages requested so far |
| Crawl.JudgeRaises | bubble_parser/parser.py:189-208 | an item raises `ValueError` exactly when it is new and its date does not parse, and `KeyError` exactly when it passes every check but has no link; nothing else raises |
| Crawl.ItemsTasksAppend | bubble_parser/parser.py:179-216 | tasks keep item order across runs of items, and an error stops everything after it |
| Crawl.ItemsTasksExactly | bubble_parser/parser.py:179-216 | when a list raises nothing, a task is in its result exactly when some item emits it |
| Crawl.KeyCrawl | bubble_parser/parser.py:154-216 | each key requests at most one page; without a request the key raised `TypeError` or `KeyError`; tasks come only from a served page with the content block; a page the site does not serve is `FetchError`, and a page without the content block raises `AttributeError` |
| Crawl.CrawlAppend | bubble_parser/parser.py:154-216 | the crawl of two runs of keys: the second run happens only when the first raised nothing, and its pages and tasks follow the first run's |
| Crawl.KeyCheckBeforeFetch | bubble_parser/parser.py:154-168 | a malformed key raises `TypeError` before its page or any later page is requested |
| Crawl.FetchesPerKey | bubble_parser/parser.py:165-168 | at most one request per key, always to one of the two article pages |
| Crawl.ParseArticoluls | bubble_parser/parser.py:150-216 | the key loop computes the crawl's tasks and the pages it requested |
| Crawl.CrawlStep | bubble_parser/parser.py:154-216 | one turn of the key loop, stated against the crawl of the remaining keys |
| Crawl.CollectKey | bubble_parser/parser.py:154-174 | the check, the request and the page walk of one key |
| Crawl.CollectLists | bubble_parser/parser.py:174-216 | the list loop computes the page's tasks, list after list |
| Crawl.CollectItems | bubble_parser/parser.py:179-216 | the item loop applies the checks in source order and stops at the first raising item |
| Dosars.PanelUrl | bubble_parser/parser.py:375-423 | only articles 10 and 11 have a panel; any other number raises `KeyError` |
| Dosars.ArticolulNumsSpec | bubble_parser/parser.py:482-487 | both articles are covered exactly when no article, or article 0, is asked for; any other request covers that article alone, and has a panel exactly when it is 10 or 11 |
| Dosars.ArticolulNums | bubble_parser/parser.py:485-487 | defines the articles a run covers: `[articolul_num]`, or `[10, 11]` when it is falsy |
| Dosars.Records | bubble_parser/parser.py:436-440 | at most one record per item; failure is `KeyError` |
| Dosars.CollectRecords | bubble_parser/parser.py:434-440 | the record loop skips items without an anchor and raises `KeyError` at the first anchor without `href` |
| Dosars.Anchored | bubble_parser/parser.py:436-440 | defines the anchors of the items that have one, in order: the `if not a: continue` of the record loop |
| Dosars.RecordsExactly | bubble_parser/parser.py:436-440 | when no anchor lacks `href`, the records are the anchored items' `(string, href)`, in order |
| Dosars.ParseInt | bubble_parser/parser.py:446 | `int(str)` fails only with `ValueError` |
| Dosars.IntOfDigits | bubble_parser/parser.py:446 | a plain digit string reads as its decimal value |
| Dosars.IntOfNegative | bubble_parser/parser.py:446 | a leading minus negates the value |
| Dosars.IntOfInnerSpace | bubble_parser/parser.py:446 | whitespace inside the number raises `ValueError` |
| Dosars.YearOf | bubble_parser/parser.py:440-446 | `int(None)` for an anchor without a single string raises `TypeError`; a string is read as `int` reads it |
| Dosars.KeepRecent | bubble_parser/parser.py:444-455 | the year loop hands on, in order, the records whose year is at most six years back, and stops at the first year `int` rejects |
| Dosars.TooOld | bubble_parser/parser.py:446 | defines the skip test `dt_now.year - int(year) > 6` |
| Dosars.Recent | bubble_parser/parser.py:445-455 | defines the year loop: the records whose year is at most six years back, in order, the first year `int` rejects ending the run |
| Dosars.RecentKeeps | bubble_parser/parser.py:444-455 | when no year fails to parse, the records handed on are exactly the reference filter's |
| Dosars.KeptMember | bubble_parser/parser.py:446-447 | a record is kept exactly when its year parses and `nowYear - year <= 6` |
| Dosars.Kept | bubble_parser/parser.py:445-455 | the filter never adds records |
| Dosars.PanelDownloads | bubble_parser/parser.py:434-455 | defines one panel up to its downloads: the records of the items, then those the year filter keeps, with the first error raised |
| Dosars.ParsePanel | bubble_parser/parser.py:434-455 | a panel's records, then the recent ones; a missing `href` is reported before any year is read |
| Dosars.SixYears | bubble_parser/parser.py:446 | seven years back is dropped and six years back is kept |
| Dosars.Concat | bubble_parser/parser.py:478-479 | defines the rows of one article: document after document, in order |
| Dosars.FlattenLength | bubble_parser/parser.py:475-480 | the flattened list is as long as all groups together |
| Dosars.Flatten | bubble_parser/parser.py:475-480 | defines the final comprehension: every row of every document of every article, in that order |
| Dosars.FlattenMember | bubble_parser/parser.py:475-480 | a row is in the result exactly when some document of some article yielded it |
| Dosars.FlattenAppend | bubble_parser/parser.py:475-480 | article order is kept |
| Dosars.ConcatMember | bubble_parser/parser.py:478-479 | within one article, a row is present exactly when one of its documents yielded it |
| Retry.Decorated.constructor | bubble_parser/parser.py:30-56 | one counter per application of the decorator, starting at `attempts`, with no calls yet |
| Retry.Decorated.Invoke | bubble_parser/parser.py:54-79 | an invocation calls the coroutine and on a timeout retries by recursion while the counter is positive; the new counter and call count are those of `Run` |
| Retry.Run | bubble_parser/parser.py:66-76 | defines one invocation of `inner`: call the coroutine; on a timeout with a positive counter, decrement it and call again; otherwise the outcome is final |
| Retry.Runs | bubble_parser/parser.py:56-76 | defines several invocations in a row that share one counter |
| Retry.RunCounter | bubble_parser/parser.py:67-72 | the counter never increases and, from a non-negative start, never goes below 0; each retry costs exactly one unit; a negative counter allows no retry |
| Retry.RunOutcome | bubble_parser/parser.py:66-76 | every call but the last timed out, and the invocation ends in the last call's outcome |
| Retry.TimeoutReraised | bubble_parser/parser.py:67-72 | a timeout reaches the caller only once the counter is used up |
| Retry.RetriesBounded | bubble_parser/parser.py:56-70 | across any number of invocations sharing the counter, at most the initial `attempts` retries happen in total |
| Retry.AlwaysTimingOut | bubble_parser/parser.py:32-72 | with the default of 5, a coroutine that always times out is called six times by the first invocation and once by every later one, so `n` invocations make `n + 5` calls |
| Retry.Exhausted | bubble_parser/parser.py:67-72 | once the counter is 0, each invocation of a coroutine that always times out calls it exactly once and leaves the counter at 0 |
| FieldDict.Names | bubble_parser/app_types.py:46-47 | one name per field, in order |
| FieldDict.NonNull | bubble_parser/app_types.py:46-50 | defines the dump as the fields whose value is not `None`, in declaration order |
| FieldDict.NonNullStep | bubble_parser/app_types.py:47-49 | one more field is kept or dropped on its own value |
| FieldDict.Delete | bubble_parser/app_types.py:49 | `del obj[name]` never adds entries |
| FieldDict.DumpWithoutNull | bubble_parser/app_types.py:44-50 | the delete loop over the declared fields leaves exactly the fields whose value is not `None`, in order |
| FieldDict.DumpStep | bubble_parser/app_types.py:47-49 | one turn of the delete loop removes the current field when it is `None` and touches nothing else |
| FieldDict.NonNullHasNoNull | bubble_parser/app_types.py:46-50 | the result contains no `None` value |
| FieldDict.NonNullKeeps | bubble_parser/app_types.py:47-49 | a field is kept, with its value unchanged, exactly when its value is not `None`; falsy values such as `0` and `""` included |
| FieldDict.NonNullKeys | bubble_parser/app_types.py:46-49 | every key of the dump is a declared field name |
| FieldDict.NonNullLength | bubble_parser/app_types.py:47-49 | the dump is shorter by exactly the number of `None` fields |
| AppTypes.Fields | bubble_parser/app_types.py:11-41 | `dict(model)` has pairwise distinct field names, in declaration order |
| AppTypes.DumpWithoutNull | bubble_parser/app_types.py:44-50 | the dump holds exactly the non-`None` fields, in order, and none of its values is `None` |
| AppTypes.NewArticolul | bubble_parser/app_types.py:11-16 | defines `Articolul(number=n)`: the other fields take their `None` defaults |
| AppTypes.NewDosar | bubble_parser/parser.py:369-372 | defines the `Dosar(articolul_num=..., year=..., raw_dosar=...)` built for each row, the other fields left at their `None` defaults |
| AppTypes.ArticolulNumberOnly | bubble_parser/app_types.py:11-50 | `Articolul(number=10)` dumps to `{"number": 10}` |
| AppTypes.NewDosarDump | bubble_parser/app_types.py:32-50 | a `Dosar` built from a row dumps to its raw row, article and year only |
| LegacyTypes.Fields | bubble_parser/types.py:11-27 | `dict(model)` has pairwise distinct field names, in declaration order |
| LegacyTypes.DumpWithoutNull | bubble_parser/types.py:30-36 | the dump keeps exactly the non-`None` fields, and is shorter by exactly their number |
| LegacyTypes.PdfDumpKeepsAll | bubble_parser/types.py:19-36 | a stored order document, whose id is set, dumps every field |
| LegacyTypes.NewArticolul | bubble_parser/types.py:11-16 | defines `Articolul(number=n)`: the other fields take their `None` defaults |
| LegacyTypes.ArticolulNumberOnly | bubble_parser/types.py:11-36 | `Articolul(number=10)` dumps to `{"number": 10}` |

## Left out

- HTTP sessions, downloads, file writes, `mkdir`, temporary directories and `shutil.rmtree` are not modelled. Their results are parameters: the site map, the file-exists flag, the text layer and the layout.
- `asyncio.gather`, `ThreadPoolExecutor` and `asyncio.to_thread` are concurrency, and are not modelled. Order is preserved where the source preserves it: `gather` and `exec.map` keep task order, so the flatten is modelled on the lists in article order.
- The second half of `parse_articoluls` is not modelled: downloading the tasks, `collect_numbers` and building the result dictionary. `gather(return_exceptions=True)` returns the failed downloads as exceptions, which `if not isinstance(res, tuple): continue` skips. The first completed download returns a 5-tuple from `_collect_data`, and unpacking it into four names raises `ValueError`, which ends `parse_articoluls`. The crawl is modelled up to the task list.
- `_parse_dosars` builds a temporary-directory prefix from `time.time()`, but `time` is never imported. The `NameError` makes the year filter unreachable as written; the filter is modelled as if that line worked.
- The foreign parsers are not modelled: `pdfminer.extract_text`, PyMuPDF's `extractDICT` and BeautifulSoup. Their outputs are inputs, and the `isinstance(..., Tag)` checks always hold on them.
- `is_date` is not modelled; it is an unused wrapper around `dateutil`.
- Timeouts, sleeps, user-agent headers, the session object and `random.uniform` are not modelled. The decorator around `parse_articoluls` itself is modelled only as the counter in `Retry`.
- `Retry.Decorated.Invoke`: the re-raised timeout and a non-timeout exception are outcomes (`Timeout`, `Failure`) rather than exceptions.
- Unicode digits are left out. Python's `\d`, `isdigit` and `int` accept them, but the model accepts ASCII digits only. `lower()` is modelled on ASCII letters; whitespace is Python's full `isspace` set.
- `Dosars.ParseInt`: underscores between digits (`int("2_019")`) are not modelled.
- `Crawl.ArticolulNum`: `str.isdigit` also accepts superscript and other Unicode digits that `int` rejects; with ASCII digits only, both agree.
- Dict iteration order is not modelled: the key dict is a sequence of (key, known labels) pairs in insertion order, and a dict is a sequence of fields.
- `datetime.now()` is read once per item in the source; here `now` is a single parameter for the whole crawl.
- `Dates.StrptimeFormat`: the `strftime` round trip is stated for years from 1000 only, where `%Y` prints four digits. A year text of any other length is rejected by `strptime`, whose `%Y` takes exactly four digits, and `Dates.Strptime` models that rejection.
- The pydantic validation of the record types is left out: the field types are Dafny types. `ArticolulPDF` built without `year` in the persistence layer is not part of this model.
- Three behaviours of the code are modelled as written:
  - a document without pages raises `IndexError` at `pages[0]`;
  - the retry counter allows `attempts` retries after the first call;
  - one counter is shared by all invocations of a decorated function.
