# Snippet loader — a Dafny model

This project models the content-resolution core of the Snippet embed library,
`modules/Snippet.js`. That core has four parts:

- `toSourceURL` turns a GitHub page URL into its raw-content URL. In a GitLab
  URL it rewrites the first `/-/blob/` to `/-/raw/`. Every other URL is kept.
- `toSnippetContent` splits a text into lines and drops a blank last line. It
  then cuts the 1-based `from`/`to` range with JavaScript `slice`, infers the
  language and the title from the URL, and optionally highlights the segment.
- `Snippet.load` resolves a single input or an array of inputs, in order.
  Inline text is used as it is. A URL source (one that starts with `https://`
  and has no newline) is normalised and looked up in the module cache. It is
  fetched only on a miss, and the fetched text is stored under the normalised
  URL. A rejected fetch rejects the whole load.
- The `Snippet` constructor, where a missing argument means no inputs.

The module-level cache is an explicit `Cache` value that goes in and comes
out. The network is a `Fetcher` oracle: the served text, or `None` for a
rejection. Every fetch is recorded in a log, so "fetched at most once" and
"fetched only on a miss" can be stated.

Modules:

- `Optional`: the option type.
- `Text`: the JavaScript string built-ins the core uses, namely `split`,
  `join`, `split(c).pop()`, `trim()` as a blank test, `includes` and
  single-replacement `replace`.
- `JsArray`: `Array.prototype.slice` with negative indices and clamping, and
  an element printed into a template literal (`undefined` when missing).
- `SourceUrl`: `toSourceURL`.
- `SnippetContent`: `toSnippetContent`.
- `Loader`: the constructor and `load`.

A record's `url`, `title` and `language` come from the normalised URL, not the
URL as written: the code passes the result of `toSourceURL` to
`toSnippetContent` (Snippet.js lines 85, 89 and 95). A GitHub page URL
therefore gets the raw URL as its `url`.

## Model

| member | source | states |
|---|---|---|
| Text.Split | modules/Snippet.js:39 | `split` gives at least one part, no part contains the separator, and there is exactly one part when the separator does not occur |
| Text.JoinSplit | modules/Snippet.js:17-21 | joining the parts of `split` with the same separator gives the original string back |
| Text.SplitJoin | modules/Snippet.js:39-46 | splitting a join of separator-free parts gives those parts back |
| Text.AfterLast | modules/Snippet.js:48 | `split(c).pop()` is the suffix after the last `c`: it has no `c` and is either the whole string or preceded by `c` |
| Text.TextAfterLastUnique | modules/Snippet.js:54 | there is only one text after the last `c` of a string |
| Text.AfterLastOf | modules/Snippet.js:54 | the last segment of `p + c + t` is `t` when `t` has no `c` |
| Text.Contains | modules/Snippet.js:24 | `includes` holds exactly when the pattern matches at some position |
| Text.ReplaceFirst | modules/Snippet.js:26 | `replace` with a string pattern changes only the first match and leaves a string without a match unchanged |
| Text.TakeUntil | modules/Snippet.js:13 | the longest prefix with no stop character: all of the string, or ended by a stop character |
| Text.TakeUntilConcat | modules/Snippet.js:13 | a stop-free prefix is always kept whole by `TakeUntil` |
| JsArray.Clamp | modules/Snippet.js:19 | a `slice` index counts back from the end when it is negative and is clamped to the array bounds |
| JsArray.Slice | modules/Snippet.js:46 | `slice` has the clamped-range length and holds the elements from the clamped start on |
| JsArray.SliceNonNegative | modules/Snippet.js:46 | with non-negative bounds, `slice` is the ordinary cut, ending at the array end, and empty when the range is empty or starts past the end |
| SourceUrl.Hostname | modules/Snippet.js:13-15 | the hostname is the text after `https://` up to the first `/`, `?` or `#` |
| SourceUrl.HostnameOf | modules/Snippet.js:13-15 | `https://` + host + a path, query or fragment has exactly that host |
| SourceUrl.Normalise | modules/Snippet.js:11-30 | the result starts with `https://`; a URL on any other host is kept; a GitLab URL whose path has no `/-/blob/` is kept |
| SourceUrl.GitHubPageParts | modules/Snippet.js:17-21 | in `https://github.com/o/r/k/ref/path` the `/`-parts 3, 4 and 6 are owner, repository and ref, and parts 7 on are the parts of the path |
| SourceUrl.GitHubRewriteOfParts | modules/Snippet.js:19-23 | from those parts the rewrite builds the raw URL on `o/r`, branch `ref`, file `path` |
| SourceUrl.GitHubBlobBecomesRaw | modules/Snippet.js:15-23 | `https://github.com/o/r/k/ref/path` becomes `https://raw.githubusercontent.com/o/r/refs/heads/ref/path` whatever `k` is, with the path kept character for character |
| SourceUrl.GitHubRepositoryParts | modules/Snippet.js:17 | a repository URL `https://github.com/o/r` has exactly five `/`-parts, with owner and repository at 3 and 4 |
| SourceUrl.GitHubRepositoryUrlIsNotValidated | modules/Snippet.js:17-23 | a bare repository URL is rewritten to a raw URL on a branch called `undefined` with an empty file path |
| SourceUrl.NoBlobInGitLabScheme | modules/Snippet.js:26 | `/-/blob/` cannot match inside the `https://` of a GitLab URL |
| SourceUrl.ReplaceKeepsPrefix | modules/Snippet.js:26 | replacing the first match keeps every character before the first possible match |
| SourceUrl.GitLabHostAndPath | modules/Snippet.js:24 | a GitLab URL with `/-/blob/` after a query-free path prefix passes the host and path test |
| SourceUrl.GitLabFirstBlob | modules/Snippet.js:26 | that `/-/blob/` is the first match in the whole URL |
| SourceUrl.GitLabBlobBecomesRaw | modules/Snippet.js:24-26 | the first `/-/blob/` of such a URL becomes `/-/raw/` and every other character is kept, including later `/-/blob/`s |
| SourceUrl.NormaliseIdempotentOffGitLab | modules/Snippet.js:11-30 | off GitLab, normalising a normalised URL changes nothing, because raw GitHub URLs are on another host |
| SnippetContent.Lines | modules/Snippet.js:39-41 | no line holds `\n`; the lines joined give the text when its last line is not blank, and the text minus its blank last line otherwise; a blank single line gives no lines |
| SnippetContent.LinesOfJoin | modules/Snippet.js:39-41 | newline-free lines whose last one is not blank come back unchanged from their join |
| SnippetContent.LinesOfTerminated | modules/Snippet.js:39-41 | a text where every line ends in `\n` has exactly those lines (the empty tail is popped) |
| SnippetContent.SegmentWhole | modules/Snippet.js:43-46 | without `from` and `to` the segment is the whole text, minus a blank last line |
| SnippetContent.SegmentRange | modules/Snippet.js:43-46 | for `from >= 1` and `to >= 0` the segment holds lines `from` to `to` counted from 1, cut at the last line, so at most `to - from + 1` lines; an empty range or a start past the end gives the empty string, not an error |
| SnippetContent.SegmentFromZero | modules/Snippet.js:43-46 | for a text with at least one line, `from: 0` becomes `slice(-1, to)`: the last line alone when `to` is missing or reaches the end, nothing when `0 <= to` is short of the end |
| SnippetContent.SegmentOfFourLines | modules/Snippet.js:39-46 | lines 2 to 3 of `a\nb\nc\nd\n` are `b\nc` |
| SnippetContent.Language | modules/Snippet.js:48 | the explicit language, else the text after the last `.` of the URL, else `plain` |
| SnippetContent.Title | modules/Snippet.js:54 | a present `title` key wins even when `null`; else the last `/`-segment of the URL; else no title |
| SnippetContent.ToSnippetContent | modules/Snippet.js:37-57 | the record carries the URL it was given and the inferred title; its content is the segment, or the highlighter applied to the segment and the inferred language |
| SnippetContent.TitleAndLanguageOfFileUrl | modules/Snippet.js:48-54 | `https://x/y/file.py` gives title `file.py` and language `py` |
| SnippetContent.ExplicitTitleWins | modules/Snippet.js:54 | an explicit title (or `null`) is kept; inline text with no language is `plain` |
| Loader.EmptySnippetLoadsNothing | modules/Snippet.js:65-68 | `new Snippet()` stores an empty array, whose load (line 103) yields an empty array of records, fetches nothing and leaves the cache as it was |
| Loader.UrlOf | modules/Snippet.js:83-85 | an input is a URL source exactly when its source starts with `https://` and has no newline; its URL then starts with `https://` |
| Loader.ResolveInput | modules/Snippet.js:81-100 | one input fetches only its URL, only on a cache miss; a rejection leaves the cache alone; a fetched text is stored before the record is built from the cached text |
| Loader.ResolveUrl | modules/Snippet.js:85-96 | a cache hit uses the cached text; a miss with a rejected fetch fails on that URL; a miss with a served text stores it and builds the record from it |
| Loader.ResolveInline | modules/Snippet.js:97-99 | inline text builds a record without a URL and touches neither the cache nor the network |
| Loader.Run | modules/Snippet.js:79-101 | the cache only grows and keeps its entries; every new entry is what the network served; URLs are fetched once each and only on a miss; a success has one record per input; a failure ends at the rejected fetch |
| Loader.RunOne | modules/Snippet.js:79-101 | loading one input is resolving that input |
| Loader.TextMatchesReference | modules/Snippet.js:87-95 | once its URL is cached, an input's text is the text in the original cache if the URL was there, else the text the network served |
| Loader.ExpectedAllAt | modules/Snippet.js:79-101 | the reference records are one per input, and record `i` is the record of input `i` |
| Loader.RunMatchesReference | modules/Snippet.js:79-101 | a successful load yields, in order, each input's record built from the text in the original cache, or else the served text |
| Loader.FailureIsFinal | modules/Snippet.js:91 | after a rejected fetch, later inputs change nothing |
| Loader.RejectionAbortsBatch | modules/Snippet.js:91 | a first input whose uncached URL is rejected fails the load on that URL, leaves the cache as it was, and fetches nothing else |
| Loader.FetchedComeFromInputs | modules/Snippet.js:83-93 | every fetched URL is the normalised URL of some input |
| Loader.SuccessCachesEveryUrl | modules/Snippet.js:85-96 | after a successful load every input's normalised URL is a cache key; one that was not cached at the start was served by the network and is in the fetch log |
| Loader.FailsIffSomeUrlRejected | modules/Snippet.js:79-101 | a load fails exactly when an input at any position names an uncached URL whose fetch rejects |
| Loader.FailsAtFirstRejected | modules/Snippet.js:79-101 | a load fails at the first rejected input in input order and names its URL; the cache it leaves holds the starting entries plus the URLs of the inputs before it; the fetch log holds those inputs' uncached URLs and then the rejected one |
| Loader.SuccessFetchesEveryUncachedUrl | modules/Snippet.js:87-96 | after a successful load the fetch log holds exactly the inputs' URLs that were not cached at the start, each once |
| Loader.AliasesFetchOnce | modules/Snippet.js:87-93 | two inputs that normalise to the same URL cause one fetch, or none when it is cached |
| Loader.ReloadHitsCache | modules/Snippet.js:87-89 | loading again with the cache a successful load left gives the same records, whatever the network does now, and fetches nothing |
| Loader.InlineTextIsShownAsIs | modules/Snippet.js:97-99 | a three-line inline text without options is shown unchanged, without title or URL, and the cache is untouched |
| Loader.LoopReject | modules/Snippet.js:91 | once a prefix of the inputs fails, the whole load has that outcome |
| Loader.LoadShape | modules/Snippet.js:75-103 | one input (wrapped into a one-element array) yields one record; an array yields the records of its inputs, in order |
| Loader.LoadAll | modules/Snippet.js:77-101 | the loop, with an early exit on rejection, computes the load of the list |
| Loader.Load | modules/Snippet.js:73-104 | returns the cache and fetch log of the load; fails exactly when some input names an uncached URL the network rejects, and then with the URL of the first such input and a cache holding the starting entries plus the URLs of the inputs before it; after a success the log holds exactly the inputs' uncached URLs; one input gives one record; an array gives each record built from the original cache or else the served text |

## Left out

- `createSnippet`, the iframe, `postMessage` and the `window` globals (lines 107-133), and `index.js`. These are browser DOM and messaging, not content resolution.
- The real asynchronous `fetch` and `resp.text()`. The network is a pure `Fetcher` oracle. A rejected body read is merged into `None`, like a rejected request. Concurrency between two `load` calls that share the cache is not modelled, because the model runs one load at a time.
- SourceUrl.Hostname: `new URL` is reduced to string scanning. Lower-casing, ports, user info, backslashes, percent-encoding and the exception `new URL` throws on an invalid string are left out.
- SourceUrl.Hostname: the URL parser ignores any number of slashes after `https:`, which the model does not. The code reads `https:///github.com/o/r/blob/b/f` as host `github.com` and rewrites it; the model sees an empty host and keeps it.
- SourceUrl.Hostname: the URL parser strips leading and trailing spaces and control characters, which the model does not. The code reads `https://github.com ` as host `github.com` and rewrites it; the model sees the host `github.com ` and keeps the URL. A space after a path changes nothing, since the GitHub rewrite splits the source string as written.
- SourceUrl.Hostname: IDNA mapping of the host (fullwidth letters folded, a soft hyphen deleted) is left out, so a host that maps to `github.com` or `gitlab.com` is not recognised.
- SourceUrl.Hostname: the URL parser first deletes every ASCII tab and carriage return, which the model does not. For example, the code reads `https://git<TAB>hub.com/o/r/blob/b/f` as host `github.com` and rewrites it. The model sees the host `git<TAB>hub.com` and keeps the URL. A line feed cannot occur, because such a source is inline text.
- SourceUrl.Pathname: the URL parser removes `.` and `..` path segments (also percent-encoded as `%2e`), which the model does not. For example, the code's pathname of `https://gitlab.com/-/blob/../x` is `/-/x`, so the test at line 24 fails and line 29 returns the URL unchanged. The model rewrites it to `https://gitlab.com/-/raw/../x`.
- SourceUrl.Pathname: an empty path stays empty instead of becoming `/`. This only matters for an empty path, where it does not change the `/-/blob/` test.
- SourceUrl.GitLabHostAndPath: holds for the model's pathname. That agrees with the code's pathname only when the path has no `.` or `..` segment and no tab or carriage return.
- SourceUrl.GitLabBlobBecomesRaw: inherits the same condition. For example, with `..` right after `/-/blob/` the code keeps the URL.
- SnippetContent.Highlight: `Prism.highlight` is an arbitrary total function of the segment and the language name. The lookup of `Prism.languages[lang]`, and the exception Prism throws for an unknown language, are left out.
- SnippetContent.Input: `from` and `to` are integers. JavaScript numbers may be fractional or `NaN`, which `slice` truncates or treats as 0; that is not modelled.
- SnippetContent.TitleField: a `null` title and an `undefined` title are both `Present(None)`. The model does not tell them apart.
- Loader.Run: the record builder is a parameter (`Renderer`), so the cache and fetch properties hold for any builder. `Loader.Load` instantiates it with `toSnippetContent` and a fixed highlighter.
- Loader.Load: the cache is an explicit map. Keys inherited from `Object.prototype` (`url in cache`) cannot collide, because every key starts with `https://`.
- `SourceUrl.Normalise` is not idempotent on GitLab URLs with several `/-/blob/`s: each call rewrites one more. This is the behaviour of the code, so only the non-GitLab case is stated as a lemma.
