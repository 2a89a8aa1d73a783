# Gutenberg scraper core, in Dafny

A model of `project_template/gutenberg_scraper.py`, the module that adds the text of
Project Gutenberg books to a pandas table of book ids. It covers these parts:

- **Candidate locations** (`urls.dfy`, module `Urls`): `gutenberg_text_urls` builds
  the shard path from the id's digits, then lists one `.zip` location per variant
  suffix followed by one `.txt` location per suffix.
- **Download** (`fetch.dfy`, module `Fetch`): `download_gutenberg` tries those six
  locations plus the `cache/epub` location, in order. It skips a 404, an error
  status, a transport failure and a whitespace-only body, and accepts the first
  reply left. An archive reply must hold exactly one member. If no reply is
  accepted it returns `"Unable to download file"`.
  - The module logger is forced to ERROR while the loop runs. Its effective level
    is restored on both exits. The logger is a `class` whose `level` field the
    method updates in place.
  - The network is a value (`Server`): the reply each URL gives.
- **Boilerplate stripping** (`boilerplate.dfy`, module `Boilerplate`): `strip_headers`
  runs two cascades of three case-insensitive regular expressions.
  - The first header marker that matches anywhere cuts the text after its leftmost,
    longest match.
  - Then, on what is left, the first footer marker that matches cuts the text before
    its match.
  - The result is `strip()`ped. The two loops are methods proved against the
    functions `AfterHeader`, `BeforeFooter` and `Cleaned`.
- **Book text and table enrichment** (`enrich.dfy`, module `Enrich`): `book_text` is
  download followed by stripping. `fetch_text_data` works like this:
  - If the table already has a `text_data` column, it asks whether to overwrite it
    and aborts unless the stripped, lower-cased answer is `y`.
  - Otherwise it adds an empty `text_data` column.
  - Then it fills the column row by row from `text_id`. The table is a `class`
    whose `columns` map is updated in place.
- **Shared helpers** (`text.dfy`, module `Text`): Python's whitespace, `str.strip()`,
  substring containment and the case folding of `re.IGNORECASE`.
  `wrappers.dfy` holds `Option`.

## Model

| member | source | states |
|---|---|---|
| Urls.JoinChars | project_template/gutenberg_scraper.py:19 | `"/".join(s)`: the characters of `s` at even positions with `/` between them, and length `2|s|-1` (empty for empty `s`) |
| Urls.ShardPath | project_template/gutenberg_scraper.py:19 | the shard path is `"0"` for an id of at most one character, otherwise the id's characters but the last, slash-separated |
| Urls.ShardPathRecoversPrefix | project_template/gutenberg_scraper.py:19 | the shard path of an id of two or more characters determines every character of the id but the last |
| Urls.ShardPathExamples | project_template/gutenberg_scraper.py:19 | `"1"` and `""` shard to `0`; `"2701"` shards to `2/7/0` |
| Urls.UrlsFor | project_template/gutenberg_scraper.py:20-21 | one location per suffix, in suffix order, each `{mirror}/{path}/{id}/{id}{suffix}{ext}` |
| Urls.GutenbergTextUrls | project_template/gutenberg_scraper.py:16-22 | twice as many locations as suffixes: all `.zip` locations in suffix order, then all `.txt` locations in suffix order, all under the id's shard path |
| Urls.DefaultCandidatesFor2701 | project_template/gutenberg_scraper.py:14-22 | with the default mirror and suffixes, book 2701 has exactly the six listed locations in that order |
| Fetch.Candidates | project_template/gutenberg_scraper.py:27 | seven locations are tried: the six generated ones, then the cache location |
| Fetch.FirstUsable | project_template/gutenberg_scraper.py:34-50 | the loop stops at the first location whose reply arrived, is not 404, has no error status and has a non-blank body; none when every reply fails one of those |
| Fetch.TryCandidates | project_template/gutenberg_scraper.py:34-55 | the `for ... else` loop returns the first usable index, requests exactly the locations up to and including it (or all of them), and issues every request at the logger's current level |
| Fetch.Logger.SetLevel | project_template/gutenberg_scraper.py:32 | `setLevel` makes the logger's own level the given one |
| Fetch.DownloadGutenberg | project_template/gutenberg_scraper.py:26-68 | returns `Download(id, server)`, requests `Requested(id, server)` with every request at ERROR, and on exit the logger's effective level is what it was on entry |
| Fetch.AllSkipped | project_template/gutenberg_scraper.py:51-55 | when no candidate is usable, the result is the sentinel and every candidate was requested, in order |
| Fetch.AllNotFound | project_template/gutenberg_scraper.py:37-40 | a server that answers 404 everywhere yields the sentinel after exactly seven requests |
| Fetch.AcceptedIsFirstUsable | project_template/gutenberg_scraper.py:34-50 | when candidate `k` is usable and no earlier one is, requests stop at `k` and the result is `k`'s unpacked reply |
| Fetch.AmbiguousArchive | project_template/gutenberg_scraper.py:60-63 | an accepted archive without exactly one member gives the sentinel, whatever its members say |
| Fetch.AcceptedReplyText | project_template/gutenberg_scraper.py:60-68 | when candidate `k` is the first usable one, an archive reply with a single member gives that member's text, and a reply of any other type gives its body |
| Fetch.BlankOnlyFromArchive | project_template/gutenberg_scraper.py:43-68 | a blank download means some candidate was accepted, and the accepted (first usable) reply is an archive |
| Text.StripTrims | project_template/gutenberg_scraper.py:103 | `strip()` keeps one stretch of its input with only whitespace outside it, leaves no whitespace at either end, and is empty exactly for blank input |
| Text.StripIdempotent | project_template/gutenberg_scraper.py:103 | stripping twice is stripping once |
| Text.StripSurrounded | project_template/gutenberg_scraper.py:103 | stripping whitespace-surrounded text that neither starts nor ends with whitespace gives back exactly that text |
| Boilerplate.LongestAt | project_template/gutenberg_scraper.py:73-80 | the end of the longest match of a marker at a given start, or none when nothing matches there |
| Boilerplate.SearchFrom | project_template/gutenberg_scraper.py:85 | the match found from a start index is a longest match, and no match starts between that index and it; none means no match from there on |
| Boilerplate.SearchIsLeftmostLongest | project_template/gutenberg_scraper.py:85-86 | `re.search` finds a match, nothing matches further left, nothing longer matches at its start, and it finds none exactly when the marker matches nowhere |
| Boilerplate.MarkerAbsent | project_template/gutenberg_scraper.py:85 | a marker whose leading word occurs nowhere (ignoring case) is not found |
| Boilerplate.FirstHit | project_template/gutenberg_scraper.py:84-89 | the cascade picks the first marker, in list order, that is found anywhere, with its match; none exactly when no marker is found |
| Boilerplate.CutHeader | project_template/gutenberg_scraper.py:83-91 | the header loop leaves `AfterHeader(text)`, and reports a header exactly when some header marker is found |
| Boilerplate.CutFooter | project_template/gutenberg_scraper.py:93-101 | the footer loop leaves `BeforeFooter(text)`, and reports a footer exactly when some footer marker is found |
| Boilerplate.StripHeaders | project_template/gutenberg_scraper.py:70-103 | the header pass, then the footer pass on its result, then `strip()`, give `Cleaned(text)` |
| Boilerplate.AfterHeaderIsSuffix | project_template/gutenberg_scraper.py:86 | the header pass keeps a suffix of the text |
| Boilerplate.BeforeFooterIsPrefix | project_template/gutenberg_scraper.py:96 | the footer pass keeps a prefix of the text |
| Boilerplate.CleanedIsTrimmedSlice | project_template/gutenberg_scraper.py:83-103 | the stripped book is one contiguous stretch of the input with no whitespace at either end |
| Boilerplate.NoHeaderKeepsStart | project_template/gutenberg_scraper.py:90-91 | with no header marker the text's start is kept: the result is a stripped prefix of the input |
| Boilerplate.NoFooterKeepsEnd | project_template/gutenberg_scraper.py:100-101 | with no footer marker after the header pass the text's end is kept: the result is a stripped suffix of the input |
| Boilerplate.NoMarkersOnlyStrips | project_template/gutenberg_scraper.py:90-103 | with no marker at all the result is the input with its surrounding whitespace stripped |
| Boilerplate.FirstHeaderMarkerWins | project_template/gutenberg_scraper.py:84-89 | when header marker `k` is the first found, the header pass keeps exactly the text after its leftmost match, whatever later markers would match |
| Boilerplate.FirstFooterMarkerWins | project_template/gutenberg_scraper.py:94-99 | when footer marker `k` is the first found in the header-stripped text, the result is that text before its leftmost match, stripped |
| Boilerplate.SampleHeaderFound | project_template/gutenberg_scraper.py:73 | in a book framed by `*** START OF THIS PROJECT GUTENBERG EBOOK X ***` and the matching end line, the first header marker is the one applied, and its match is exactly the first line |
| Boilerplate.SampleFooterFound | project_template/gutenberg_scraper.py:78 | in what the header pass leaves of that book, the first footer marker is the one applied, and its match starts after `\nBODY\n` and runs to the end |
| Boilerplate.SampleBookCleaned | project_template/gutenberg_scraper.py:70-103 | `strip_headers` of that book returns exactly `BODY` |
| Enrich.BookTextOf | project_template/gutenberg_scraper.py:105-109 | `book_text` returns the stripped download, and leaves the logger's effective level as it found it |
| Enrich.UnreachableBookGivesSentinel | project_template/gutenberg_scraper.py:105-109 | a book none of whose locations is usable yields the sentinel, unchanged by stripping |
| Enrich.SentinelSurvivesCleaning | project_template/gutenberg_scraper.py:70-103 | `strip_headers("Unable to download file")` returns the sentinel unchanged |
| Enrich.NoHeaderInSentinel | project_template/gutenberg_scraper.py:72-76 | no header marker matches the sentinel |
| Enrich.NoFooterInSentinel | project_template/gutenberg_scraper.py:77-81 | no footer marker matches the sentinel |
| Enrich.BookTexts | project_template/gutenberg_scraper.py:128 | the built column has one cell per row |
| Enrich.BookTextsPerRow | project_template/gutenberg_scraper.py:128 | row `k` of the built column holds the book text of row `k`'s id |
| Enrich.RowFailureGivesSentinel | project_template/gutenberg_scraper.py:124-128 | a row whose book cannot be fetched holds the sentinel, not a raised fault |
| Enrich.FillColumn | project_template/gutenberg_scraper.py:124-128 | the row-by-row apply builds exactly `BookTexts(ids, server)`, and leaves the logger's effective level as it found it |
| Enrich.ConfirmsExactly | project_template/gutenberg_scraper.py:115-116 | the overwrite is confirmed exactly when the stripped answer is `y` or `Y` |
| Enrich.ConfirmsExamples | project_template/gutenberg_scraper.py:115-116 | ` y` followed by a newline, and `Y`, confirm |
| Enrich.RefusesExamples | project_template/gutenberg_scraper.py:115-116 | `yes`, `n` and an empty answer do not confirm |
| Enrich.Frame.FetchTextData | project_template/gutenberg_scraper.py:111-130 | declining the prompt changes nothing. Otherwise, without `text_id`, the table only gains the empty column. Otherwise `text_data` becomes the book text of every row and all other columns stay as they were. The logger's effective level is always preserved |
| Enrich.FilledColumnPerRow | project_template/gutenberg_scraper.py:128 | filling keeps every other column, adds only `text_data`, has one cell per row, and row `k` holds the book text of row `k`'s id |

## Left out

- HTTP itself: redirects, timeouts, headers other than Content-Type, and response
  bytes. A location's reply is given as its status, decoded text, Content-Type and,
  for an archive, the decoded text of its members. A
  `requests.exceptions.RequestException` raised while fetching a location
  (caught at line 48) is one `Unreachable` reply.
- Fetch.DownloadGutenberg: exceptions other than `RequestException` are not modelled.
  When one occurs, it leaves the loop before the restores at lines 54 and 58, so the
  source leaves the logger at ERROR. The restore postcondition holds for runs with
  no such exception.
- Archive decompression and `chardet` decoding: each member is given already
  decoded.
- The text of log messages and whether a handler emits them, the `print` after an
  aborted overwrite, the `tqdm` progress bar, and the `input()` prompt. The typed
  answer is a parameter.
- The logger's NOTSET level: the model keeps a logger's own level and the level it
  inherits. After a restore, the logger's own level is set explicitly to its former
  *effective* level, as the source does. If that level was NOTSET on entry, it stays
  explicit afterwards.
- The regular-expression engine in general. Only the six markers are modelled, as
  a literal word or `lead.*tail` (where `.` excludes newline). Case folding covers
  ASCII letters plus the four non-ASCII characters Python folds onto `i`, `s` and
  `k`.
- pandas dtypes and the row index. A cell is missing or a string. A missing
  `text_id` is passed on as the text `<NA>` (a float NaN id would render as `nan`).
  A table without a `text_id` column ends in the `KeyError` the source raises, which
  is modelled as the outcome `MissingIds` after the empty column was added.
- A malformed archive or an undecodable member raises out of `download_gutenberg`
  (lines 61-66). It is not turned into the sentinel, and the model does not
  represent that exception.
- The footer markers are searched in the header-stripped text (line 95).
