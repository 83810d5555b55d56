# Soba scraper crawl: a Dafny model

This project models the core of the scraper's `SobaScraper` class (`scraper.py`):

- the crawl `scrape_webpage`: a worklist loop over a set of
  links to visit and a set of visited links, restricted to the seed's network
  location;
- the fragment cut `extract_link` applies to every `href`;
- the page-file name derived from the URL path (last segment, `.html` removed);
- the text clean-up `write_text_to_header` performs before writing a page;
- the `Summary.txt` file listing every visited URL.

Modules follow the program's structure:

- `Strings` holds the Python string primitives the code relies on: `str.split` with a
  one-character separator, `str.join`, `str.replace(pat, '')` and character filtering.
- `Links` holds the fragment cut and the file stem.
- `Output` holds the output paths and the summary file.
- `Sanitizer` holds the six clean-up steps of lines 78, 80, 81, 83, 85 and 87.
- `Crawl` holds the loop, split into a pure round function `Visit`, its invariant and a
  method driver `Explore`. `ScrapeWebpage` adds the summary on top of `Explore`.

Everything the crawl calls into is a parameter. The `Env` datatype carries five functions:

- the page fetch, which includes the HTML region search and returns the text region and
  the raw `href` values of the link region;
- `urljoin`;
- the network location of `urlparse`;
- the path of `urlparse`;
- the NFKD decomposition.

The output directory is a map from file path to contents. The source iterates over Python
sets, whose order the model does not fix. A pop from the frontier is therefore an arbitrary
element (`:|`), and the summary's order is any enumeration of the visited set.

The source loop does not terminate when the same-host link graph is infinite. The model's
crawl takes a ghost finite `universe` that holds the seed and is closed under the link
relation. The universe only bounds the proof of termination and does not affect the
result.

Main results:

- The crawl visits exactly the least link-closed set that holds the seed (`ScrapeWebpage`).
- Every page it visits is on the seed's host.
- Every visited URL is fetched exactly once. The seed is fetched first, and every later
  page was found on a page fetched before it.
- Files present before the crawl are never overwritten, except `Summary.txt`.
- A page file holds the sanitized text of the first URL to claim that name.
- The summary lists every visited URL once. Reading it back line by line returns the
  header and the URLs, provided no URL contains a newline. `urljoin` is left
  uninterpreted, so the crawl itself does not guarantee this.

## Behaviour of the code worth noting

- **The clean-up is not idempotent.** `"\n\t\n"` becomes `"\n\n"`, because tab removal
  rejoins two newlines after the collapse. Cleaning that text again gives `"\n"`.
  Removing ` More...` has the same effect. See `Sanitizer.TabRemovalRejoinsNewlines` and
  `Sanitizer.MoreRemovalRejoinsNewlines`.
- **The `#` test of line 122 can never fire.** Line 68 already cuts every `href` at its
  first `#`, so `#top` arrives as the empty link, and no extracted link starts with `#`
  (`Links.ExtractLinks`, `Links.FragmentOnlyBecomesEmpty`). The empty link is then
  resolved against the current page by `urljoin`.
- **One `.html` pass may leave `.html` behind.** `str.replace` scans once, left to right,
  so a segment such as `.ht.htmlml` yields the stem `.html`
  (`Strings.RemoveAllCanLeaveOccurrence`).

The summary is written to `out_dir\Summary.txt`. This is also the page file of any page
whose stem is `Summary` (`Output.SummaryPathIsPagePath`), so the summary replaces that
page's text. Last segments `Summary.html`, `Summary` and `Sum.htmlmary` all give that stem. The contract of `Crawl.ScrapeWebpage` states the page-file
guarantees for every file except the summary.

## Model

| member | source | states |
|---|---|---|
| Strings.Split | scraper.py:68 | Python `str.split` with one separator never returns an empty list |
| Strings.SplitPieces | scraper.py:68 | no piece of a split contains the separator |
| Strings.Join | scraper.py:131 | Python `sep.join(parts)`: the pieces with one separator between neighbours; `JoinSplit` and `SplitJoin` make it the inverse of `Split` |
| Strings.JoinSplit | scraper.py:68 | joining the pieces of a split with the separator gives back the original string |
| Strings.SplitJoin | scraper.py:131 | splitting the join of a non-empty list of separator-free lines gives back exactly those lines |
| Strings.SplitLast | scraper.py:115 | the last piece of a split is a suffix that starts at the beginning or right after a separator |
| Strings.SplitLastPiece | scraper.py:115 | the last piece of a split is the text left after skipping past separators one at a time |
| Strings.LastPieceSuffix | scraper.py:115 | that text is a suffix which is the whole string or follows a separator |
| Strings.RemoveAll | scraper.py:85 | `str.replace(pat, '')` never lengthens the text and introduces no character; `RemoveAllFirst` and `RemoveAllAbsent` fix its result exactly |
| Strings.RemoveAllFirst | scraper.py:85 | the leftmost occurrence is deleted, the text before it is kept, and the scan resumes right after it |
| Strings.RemoveAllFrom | scraper.py:85 | a prefix in which no occurrence starts is copied unchanged |
| Strings.RemoveAllAbsent | scraper.py:85 | a text in which the pattern does not occur is unchanged by the replacement |
| Strings.RemoveAllCanLeaveOccurrence | scraper.py:116 | one replacement pass can leave `.html` in the result (`.ht.htmlml` becomes `.html`) |
| Strings.FilterMembers | scraper.py:87 | a character survives deletion of the others exactly when it occurs and is kept |
| Strings.FilterKeepsAll | scraper.py:78 | deleting characters from a text that has none to delete changes nothing |
| Strings.FilterConcat | scraper.py:87 | character deletion distributes over concatenation |
| Links.StripFragment | scraper.py:68 | the kept part of an `href` is its prefix up to the first `#` and holds no `#` |
| Links.ExtractLinks | scraper.py:64-69 | one link per `href`, in order, each the fragment-free prefix; no link starts with `#` |
| Links.FragmentOnlyBecomesEmpty | scraper.py:68 | a fragment-only `href` becomes the empty link |
| Links.LastSegment | scraper.py:115 | the last path segment holds no `/` and is a suffix of the path that follows a `/` unless it is the whole path |
| Links.LastSegmentOf | scraper.py:115 | the last segment of `dir/name` is `name` for any slash-free name |
| Links.FileStem | scraper.py:115-116 | the page-file stem holds no `/` and is no longer than the last segment; `FileStemDropsHtml` and `FileStemNoHtml` fix it exactly |
| Links.FileStemDropsHtml | scraper.py:115-116 | the stem is the last segment with its leftmost `.html` cut out and the rest scanned again |
| Links.FileStemNoHtml | scraper.py:115-116 | a last segment without `.html` is the stem itself |
| Links.FileStemOfHtmlPage | scraper.py:115-116 | a page `dir/stem.html` whose stem holds no `/` and no `.html` is stored under exactly `stem` |
| Output.PagePath | scraper.py:72 | the page file `out_dir + '\\' + stem + '.txt'`, whose existence line 117 checks; `PagePathInjective` shows distinct stems give distinct files |
| Output.SummaryPath | scraper.py:129 | the summary file `out_dir + '\\Summary.txt'`; `SummaryPathIsPagePath` shows it is the page file of stem `Summary` |
| Output.SummaryText | scraper.py:130-131 | the header line `Urls Scraped Successfully:` followed by the listed URLs joined by newlines; `SummaryLines` reads it back |
| Output.WriteSummary | scraper.py:129-131 | writing the summary creates or replaces only `Summary.txt`, whose content is the header line and the listing |
| Output.PagePathInjective | scraper.py:117 | two pages of one directory share a file exactly when they share a stem |
| Output.SummaryPathIsPagePath | scraper.py:129 | the summary path coincides with the page file of stem `Summary` |
| Output.SummaryLines | scraper.py:130-131 | for a non-empty listing in which no URL contains a newline, reading the summary back by lines gives the header followed by exactly the listed URLs |
| Sanitizer.StripNonAscii | scraper.py:78 | after the ASCII filter the text is ASCII, keeps exactly the ASCII characters of the decomposition, and ASCII text passes unchanged |
| Sanitizer.IsSpace | scraper.py:80-81 | the `\s` class on ASCII text: space, tab to carriage return, and 0x1C to 0x1F; the rewrites see ASCII text only, because line 78 runs first (`Sanitizer.StripNonAscii`) |
| Sanitizer.IsWordChar | scraper.py:81 | the `\w` class on ASCII text: letters, digits and `_` |
| Sanitizer.JoinOpenParens | scraper.py:80 | the `\s(\s` rewrite never lengthens the text and introduces no character other than a space; `JoinOpenParensFirst` fixes its result exactly |
| Sanitizer.JoinOpenParensFirst | scraper.py:80 | the leftmost `\s(\s` triple becomes `( `, the text before it is kept, and the scan resumes after the triple |
| Sanitizer.JoinOpenParensFrom | scraper.py:80 | a prefix in which no triple starts is copied unchanged |
| Sanitizer.JoinOpenParensKeepsVisible | scraper.py:80 | the `\s(\s` rewrite changes only whitespace: the non-whitespace text is unchanged |
| Sanitizer.JoinOpenParensNoParen | scraper.py:80 | text without `(` is left unchanged by the `\s(\s` rewrite |
| Sanitizer.WordRun | scraper.py:81 | the greedy `\w*` match is the maximal run of word characters |
| Sanitizer.WordRunOf | scraper.py:81 | a run of word characters followed by a non-word character is exactly the greedy `\w*` match |
| Sanitizer.JoinCloseParens | scraper.py:81 | the `\sident)` rewrite never lengthens the text and introduces no character other than a space; `JoinCloseParensFirst` fixes its result exactly |
| Sanitizer.JoinCloseParensFirst | scraper.py:81 | the leftmost `\sident)` match becomes `ident )`, the text before it is kept, and the scan resumes after the parenthesis |
| Sanitizer.JoinCloseParensCopies | scraper.py:81 | a prefix in which no `\sident)` match starts is copied unchanged |
| Sanitizer.JoinCloseParensKeepsVisible | scraper.py:81 | the `\sident)` rewrite changes only whitespace: the non-whitespace text is unchanged |
| Sanitizer.JoinCloseParensNoParen | scraper.py:81 | text without `)` is left unchanged by the `\sident)` rewrite |
| Sanitizer.CollapseNewlines | scraper.py:83 | after the newline collapse no newline follows another, the character set is unchanged and the first character is kept |
| Sanitizer.CollapseNewlinesKeepsText | scraper.py:83 | the collapse keeps every non-newline character, in order |
| Sanitizer.CollapseNewlinesRun | scraper.py:83 | each newline run collapses where it stands: shortening a run by one newline leaves the result unchanged; with `CollapseNewlinesFixpoint` this fixes the result on every input |
| Sanitizer.CollapseNewlinesFixpoint | scraper.py:83 | text with no newline run is unchanged by the collapse |
| Sanitizer.Collapsed | scraper.py:78-83 | the text after the first four steps is ASCII, has no newline runs, and holds only characters of the decomposition or spaces |
| Sanitizer.Sanitize | scraper.py:78-87 | the written text is ASCII, holds no tab, and holds only characters of the decomposition or spaces |
| Sanitizer.TabRemovalRejoinsNewlines | scraper.py:83-87 | tab deletion after the collapse can leave `\n\n` in the output, so cleaning twice differs from cleaning once |
| Sanitizer.MoreRemovalRejoinsNewlines | scraper.py:83-85 | removing ` More...` after the collapse can leave `\n\n` in the output |
| Crawl.Accepted | scraper.py:121-126 | a found link is queued when it does not start with `#` and, resolved against the page, names the page's network location; `NewLinks` collects exactly these |
| Crawl.Successors | scraper.py:107-126 | the links queued after visiting a page: the accepted fragment-cut `href` values of its link region, resolved against it |
| Crawl.PageFile | scraper.py:115-117 | the file a visited URL is written to: the page path of the stem of its URL path; `PageFileShared` shows when two URLs share it |
| Crawl.Content | scraper.py:78-90 | the text written for a visited URL: the cleaned text of its fetched text region |
| Crawl.NewLinks | scraper.py:121-126 | the links queued from a page are exactly the non-`#` links whose resolution lies on the page's host |
| Crawl.PageFileShared | scraper.py:115-117 | two URLs are written to the same file exactly when their paths give the same stem |
| Crawl.Visit | scraper.py:99-126 | one round marks the popped link visited; a new link is fetched once, its page file gets the writer's text for it if the file was absent, and the frontier becomes the old one without the link plus exactly the link's successors; a visited link only leaves the frontier |
| Crawl.InitInv | scraper.py:94-95 | the initial state (nothing visited, frontier holding the seed, directory untouched) satisfies the crawl invariant |
| Crawl.VisitKeepsInv | scraper.py:98-126 | every round preserves the crawl invariant |
| Crawl.VisitKeepsOrder | scraper.py:95-126 | a round keeps the seed the first URL fetched (the frontier starts as `{ url }`) and fetches only a URL found on a page fetched before |
| Crawl.QueuedFound | scraper.py:120-126 | once a page is fetched, every URL left in the frontier was found on a fetched page |
| Crawl.FetchedFound | scraper.py:99-103 | fetching a queued URL keeps every fetched URL after the seed found on a page fetched before it |
| Crawl.VisitKeepsFetchedOnce | scraper.py:102-103 | a round fetches only a URL not fetched before, and fetched equals visited |
| Crawl.VisitKeepsReach | scraper.py:120-126 | a round stays on the seed's host, inside every link-closed set holding the seed, and queues the visited page's successors |
| Crawl.VisitKeepsFiles | scraper.py:114-118 | a round keeps old files and gives a newly claimed page file the text of its first writer |
| Crawl.FilesOfAppend | scraper.py:117-118 | fetching one more URL adds exactly its page file to the claimed files |
| Crawl.VisitAddsFile | scraper.py:117-118 | a round fetching a new URL leaves its page file present and adds no other file |
| Crawl.VisitFirstWriter | scraper.py:117-118 | after a round, every new page file still holds its first writer's text |
| Crawl.VisitProgresses | scraper.py:98-103 | a round stays inside a closed universe and either visits a new URL or shrinks the frontier |
| Crawl.Enumerate | scraper.py:131 | iterating a set lists each of its elements exactly once |
| Crawl.Explore | scraper.py:98-126 | the loop ends with an empty frontier and the crawl invariant |
| Crawl.ExitFacts | scraper.py:98-126 | with an empty frontier, the visited set is link-closed, least among closed sets holding the seed, and on the seed's host |
| Crawl.ScrapeWebpage | scraper.py:93-131 | the crawl visits exactly the pages reachable from the seed on its host, fetches each once with the seed first and every later page found on an earlier one, keeps existing files, writes first-writer page texts (so a new seed page file holds the seed's text) and a summary listing every visited URL once |

## Left out

- Reading the configuration and iterating over the configured sites (`scrape_all`), because this is I/O around the core.
- The HTTP request, the BeautifulSoup region search and `extract_header`: they are foreign calls, represented by the page fetch of `Env`.
- `urljoin` and `urlparse`: they are left uninterpreted, so no property depends on how URLs are resolved or parsed.
- NFKD normalisation: it is an abstract function of the text; the model fixes only what the ASCII filter does with its result.
- Opening and writing files, `os.path.isfile` and the console messages: the directory is a map, and a file exists exactly when its path is a key.
- Windows path semantics of `out_dir + '\\' + ...`: paths are plain strings compared for equality.
- The thread-safe set and flag helpers (`threadsafe_set.py`, `threadsafe_bool.py`): the crawl does not use them.
- Python set iteration order: it is left unspecified, so the pop and the summary order are arbitrary.
- Crawl.Explore: requires a finite link-closed universe holding the seed, because on an infinite same-host link graph the source loop does not terminate.
- Sanitizer.Sanitize: does not state that the visible text survives ` More...` removal, because that removal deletes visible characters; the whitespace-only rewrites of lines 80-81 are stated separately.
- Fetch failures and parser exceptions: the fetch is total, because the code catches no exception in the loop and an exception would end the crawl.
