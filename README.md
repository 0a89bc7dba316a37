# A verified model of the comment scraper's core

`comment_scraper.py` crawls a web site. It starts from a seed URL. For each
page it:

- fetches the page;
- collects the HTML comments (`<!--` … `-->`) line by line, with their line
  numbers;
- hands those comments to an output sink;
- appends the page's same-site links to a growing frontier, which it walks
  by index.

This project models the three text-and-list algorithms at the heart of that
program, and proves what they promise:

- `parse_comments`: a one-pass scanner whose state is a `continuing` flag
  and the list of records it builds. Modelled by the `Comments` module
  (`comments.dfy`) as the method `ParseComments`, proved against the
  specification function `Parse` (a fold of `Step` over the lines).
- `get_links`: slices a candidate link out of each line holding
  `<a href=`, filters it, and appends it to the caller's list. Modelled by
  the `Links` module (`links.dfy`) as the method `GetLinks`, proved
  against `NewLinks`.
- The crawl loop of `main`: walks `links[0]`, `links[1]`, … while fewer
  than `number` pages have been visited and unvisited links remain.
  Modelled by the `Crawl` module (`crawl.dfy`) as the method `Crawl`,
  proved against the function `Run`.

The program relies on Python's own string semantics, and the `PyStr` module
(`py_str.dfy`) writes them out:

- `str.find` answers -1 when the pattern is absent;
- a slice accepts negative and out-of-range bounds;
- `str.strip(chars)` removes a *set* of characters from both ends.

Fetching a page is a parameter `fetch: string -> Option<seq<string>>`.
`None` stands for a request that fails, which ends the program. Because
`fetch` is a function, two fetches of the same URL give the same page. The
frontier keeps duplicates, so a URL that appears twice is visited twice and
both visits record the same comments. The program instead sends a second
request, which may answer differently. The output sink is modelled as the
list of `Visit`s it receives.

Behaviour the code has and the model keeps, even where the program's own
descriptions suggest otherwise:

- a one-line comment is recorded as the whole line, not only the comment;
- `-->` is not required to come after `<!--`;
- a multi-line record starts with a line break;
- `"http://"` and `"https://"` are stripped from the URL as character sets,
  not as prefixes;
- links are never de-duplicated. The filter reads `A or B and C`, and C
  (an integer compared against a list of strings) is always true.

## Model

| member | source | states |
|---|---|---|
| PyStr.Find | comment_scraper.py:37 | `find` gives -1 exactly when the pattern does not occur, and otherwise its first occurrence |
| PyStr.PySlice | comment_scraper.py:174 | a slice with negative or out-of-range bounds is the subsequence between the two normalised bounds, and empty when they cross |
| PyStr.PyPrefix | comment_scraper.py:175 | `s[:stop]` is a prefix of `s`, equal to `s[..stop]` in range and to `s[..len+stop]` for a negative bound |
| PyStr.PrefixMinusOneDropsLast | comment_scraper.py:175-176 | a `find` that fails (-1) as a slice bound drops the last character |
| PyStr.Strip | comment_scraper.py:181 | `strip(chars)` cuts a piece out of `s` between a leading and a trailing run of set characters, and the piece neither starts nor ends with one |
| PyStr.StripIdempotent | comment_scraper.py:181 | stripping twice with the same set is the same as stripping once |
| PyStr.LStripSkips | comment_scraper.py:181 | any leading run of set characters disappears, whatever follows it |
| Comments.AppendToLast | comment_scraper.py:39 | `comments[-1][1] += s` keeps every earlier record and the last record's line index, and appends `s` to its text |
| Comments.CutAfterClose | comment_scraper.py:47 | the closing line is cut right after its first `-->`: a prefix of the line ending in `-->`, with no earlier `-->` |
| Comments.Step | comment_scraper.py:33-59 | every line keeps the invariant that an open comment has a record, so `comments[-1]` never fails |
| Comments.ParseComments | comment_scraper.py:22-61 | the loop computes `Parse`: at most one record per line, valid and strictly increasing line indices |
| Comments.ScanOrdered | comment_scraper.py:35-59 | after n lines there are at most n records, each index is below n, and the indices strictly increase |
| Comments.StepShape | comment_scraper.py:35-59 | one line either appends exactly one record, for that line, or leaves the number and indices of records unchanged |
| Comments.ScanOnlyExtends | comment_scraper.py:35-59 | later lines never remove a record or change an index; they only append text to the open record or add records |
| Comments.NoOpenerNoChange | comment_scraper.py:51-59 | outside a comment, a line without `<!--` changes nothing, even if it holds a stray `-->` |
| Comments.NoOpenerAnywhere | comment_scraper.py:35-59 | a page on which no line holds `<!--` yields no record, whatever `-->` it holds |
| Comments.SingleLineComment | comment_scraper.py:51-52 | outside a comment, a line with both markers, in either order, adds `(i, line)` with the whole line |
| Comments.OpeningLine | comment_scraper.py:57-59 | outside a comment, a line that opens one without closing it adds `(i, "\n" + line)` and opens a comment |
| Comments.ContinuationLine | comment_scraper.py:37-39 | inside a comment, a line without `-->` is appended whole after a line break |
| Comments.ClosingLine | comment_scraper.py:42-47 | inside a comment, a line with `-->` is appended up to its first `-->`, and the comment closes |
| Comments.OpenCommentAccumulates | comment_scraper.py:37-59 | while a comment stays open, its record is the opening line followed by every later line, each after a line break; `<!--` on those lines is plain text |
| Comments.MultiLineComment | comment_scraper.py:37-59 | a comment from line i to its first `-->` at line j is one record at i, built in line order and ending in `-->` |
| Comments.UnterminatedComment | comment_scraper.py:57-61 | a comment still open at the end of the page is returned as it stands, with no error |
| Comments.ExampleSingleLine | comment_scraper.py:51-52 | a comment alone on line 1 of three lines gives the single record `(1, line)` |
| Comments.ExampleMultiLine | comment_scraper.py:37-59 | a comment over three lines gives one record at line 0, the lines joined by line breaks |
| Comments.ExampleCloseBeforeOpen | comment_scraper.py:51-52 | `x --> y <!-- z` is taken as a whole one-line comment, and the `-->` on the next line is ignored |
| Links.SchemeCharSets | comment_scraper.py:181 | the two strip arguments stand for the sets of characters of `http://` and `https://` |
| Links.Host | comment_scraper.py:181 | the host text is a piece of the URL, and neither of its ends is a character of `https://` |
| Links.StripBoth | comment_scraper.py:181 | two strips with any two sets give a piece of the input with no character of the second set at either end |
| Links.HostStable | comment_scraper.py:181 | taking the host text of a host text changes nothing |
| Links.SchemeIgnored | comment_scraper.py:181 | `http://` in front of a URL does not change its host text |
| Links.AnchorSlice | comment_scraper.py:174 | the first slice is a substring starting 9 characters after the first `<a href=` (clamped to the line's end) |
| Links.AnchorSliceUnclosed | comment_scraper.py:174 | with no `</a>` on the line, the stop bound is -2 and the slice ends two characters before the line's end |
| Links.AnchorFound | comment_scraper.py:174 | in `pre<a href="p">t</a>post` with no `<a href=` in `pre`, `find('<a href=')` is the anchor's position |
| Links.AnchorEndFound | comment_scraper.py:174 | when there is no `</a>` in `pre`, `p` or `t`, `find('</a>')` is the anchor's own `</a>`, even with other tags around or inside the anchor |
| Links.CutLink | comment_scraper.py:175-176 | the two cuts give a prefix of their input that holds neither `>` nor `"` |
| Links.CutBeforeFirst | comment_scraper.py:175-176 | `s[:s.find(c)]` never contains `c`, whether or not `c` occurs |
| Links.Candidate | comment_scraper.py:174-176 | the candidate link is a substring of the line starting after `<a href="`, holding neither `>` nor `"` |
| Links.AnchorSliceOf | comment_scraper.py:174 | for `pre<a href="p">t</a>post` where `pre` has no `<a href=` and no `</a>`, and `p` and `t` have no `</a>`, the slice is `p`, `">` and all of `t` but its last character |
| Links.CutLinkQuoted | comment_scraper.py:175-176 | `p">…` is cut back to exactly `p` |
| Links.CutLinkUnclosed | comment_scraper.py:175-176 | `p"` with no `>` loses the quote and also the last character of `p`, through two -1 bounds |
| Links.WellFormedAnchor | comment_scraper.py:172-176 | the first anchor of a line, `<a href="p">t</a>` with non-empty text, `p` free of `>` and `"`, and no `</a>` before it or in `t`, yields exactly `p`; other tags may surround it |
| Links.EmptyAnchorText | comment_scraper.py:174-176 | the first anchor of a line with empty text, `<a href="p"></a>`, yields `p` without its last character |
| Links.LinkOf | comment_scraper.py:172-186 | whatever a line contributes is admissible: a non-fragment link containing the host text, or the page URL followed by a `/` path |
| Links.AnchorLinkDecision | comment_scraper.py:178-186 | for the first anchor of a line (as in WellFormedAnchor): empty or `#` links are dropped, `/` paths become `url + p`, and other links are kept exactly when they contain the host text |
| Links.ExampleListItem | comment_scraper.py:172-186 | `<li><a href="/x">X</a></li>` contributes `url + "/x"` |
| Links.LeadingAnchorEnd | comment_scraper.py:174-176 | on a line starting with `</a>`, the stop bound -1 means the last character, and the anchor's link is still cut out exactly |
| Links.ExampleLeadingClose | comment_scraper.py:172-186 | `</a><a href="/x">X</a>` contributes `url + "/x"` |
| Links.CrossedEmpty | comment_scraper.py:174-186 | a `</a>` at index 1 or later before the first `<a href=` gives an empty candidate, and the line adds no link |
| Links.NoDeduplication | comment_scraper.py:181-186 | a link that appears on two lines is appended twice |
| Links.LineLinks | comment_scraper.py:172-186 | a line contributes at most one entry, and it is admissible |
| Links.NewLinks | comment_scraper.py:170-186 | a page contributes at most one entry per line, all of them admissible |
| Links.GetLinks | comment_scraper.py:163-188 | the result is the input list followed by the page's entries: the input is a prefix, with at most one entry per line, every new entry admissible |
| Links.AppendedAdmissible | comment_scraper.py:170-188 | every entry after the caller's links is admissible for the page URL |
| Crawl.Start | comment_scraper.py:214-215 | the frontier starts as `[url]`, the counter at 0, with nothing visited |
| Crawl.Iterate | comment_scraper.py:228-244 | one iteration aborts exactly when the fetch of `links[iterations]` fails, and then changes nothing else; otherwise it counts itself, appends one visit holding that page's parsed comments, and grows the frontier by exactly the links `get_links` finds on that page, each admissible for it |
| Crawl.Crawl | comment_scraper.py:214-244 | the loop computes `Run`: at most `number` visits, never more than the frontier holds; visit k is `links[k]`, fetched and parsed; the seed stays first; unless a fetch failed, it stops at `number` or at the frontier's end; if one failed, it was the fetch of `links[len(visits)]` |
| Crawl.IterateCoherent | comment_scraper.py:225-244 | one iteration keeps "visit k is the parsed page of `links[k]`, one visit per iteration" |
| Crawl.RunGrows | comment_scraper.py:225-244 | the frontier and the visits only grow by appending, and the counter never passes `number` |
| Crawl.RunCoherent | comment_scraper.py:225-244 | the loop invariant holds when the loop ends |
| Crawl.RunStops | comment_scraper.py:225-231 | a run stops only when the counter reaches `number` or the frontier's length, or when the fetch of the next link fails |
| Crawl.CrawlBounds | comment_scraper.py:214-244 | a whole crawl from a seed: `min(number, len(links))` bounds, the seed stays first, each visit is its link's parsed page, and an abort comes from the failed fetch of the first unvisited link |
| Crawl.SingleIteration | comment_scraper.py:214-244 | with `number = 1`, only the seed is fetched: the crawl aborts with nothing written, or writes exactly the seed page's comments |

## Left out

- `get_content` (comment_scraper.py:63-88) is not part of this model. It covers:
  - HTTP through `requests`;
  - the `https://` retry;
  - BeautifulSoup's re-serialisation.

  The page is the result of the `fetch` parameter, already split into lines.
- The program's exit when a page cannot be fetched (`sys.exit`) becomes an aborted run: no further iterations, nothing more written.
- `write_output` (comment_scraper.py:90-161) is not part of this model. It covers:
  - printing to stdout;
  - appending to a file;
  - MySQL statements;
  - timestamps;
  - table-name derivation.

  The sink is modelled only as the list of visits it is given.
- Command-line parsing (comment_scraper.py:202-218) is not modelled:
  - `argparse` is left out;
  - `int(args.number)` conversion is left out;
  - the default of 1 is left out.

  The bound is a natural number `number`.
- Python's `list.append` on the caller's `links` mutates the list in place. `get_links` also returns that same list. The model passes lists by value, and `GetLinks` returns the extended list, so aliasing is not represented.
- Strings are sequences of characters. Byte decoding and Unicode normalisation happen in the fetch, which is outside the model.
- Crawl.Crawl: stated against `Run`. Concrete properties of crawls over particular sites (for example that a page linking to itself is fetched again) are not proved.
- Links.GetLinks: fixes the new entries by `NewLinks`, which follows the lines in order. A line that is not covered by WellFormedAnchor is characterised only by the contracts of `Candidate` and `LinkOf`, not by a closed formula. Examples are a line whose anchor follows an earlier `</a>`, or one whose link holds a `>`.
- WellFormedAnchor: applies to a line's first `<a href=` when no `</a>` precedes it or lies in its text. An earlier `</a>` at index 1 or later puts the slice's stop bound before its start, so the candidate is empty and the line adds nothing (CrossedEmpty). A `</a>` at index 0 makes the stop bound -1, the line's last character, and the link is still cut out (LeadingAnchorEnd).
- EmptyAnchorText: has the same scope as WellFormedAnchor, for an anchor whose text is empty.
- AnchorLinkDecision: has the same scope as WellFormedAnchor.
