# Discord CDN link scraper — a Dafny model

The scraper is a self-bot command (`index.js`). When its owner types the
configured command in a channel, it works through these stages:

1. It pages backwards through the channel's recent history, 100 messages per
   request, until it has at least `messageLimit` messages or a page comes
   back short.
2. It visits the fetched messages oldest first. From each one it collects
   every match of `https?://(cdn|media)\.discordapp\.(com|net)/\S+` in the
   text, then the URLs of the attachments.
3. It screens the links by policy. When `videosOnly` is set, it keeps only
   links whose lower-cased extension is one of `videoFormats`. It drops
   every link that includes one of `excludeKeywords`.
4. It appends to the output file, one per line, the links that are not
   already lines of that file.

Modules, one per stage plus shared support:

- `Messages`: message records and the platform's newest-first ordering.
- `Paginator`: `fetchMessages`. The platform's paged fetch is a function
  over the channel's history. The loop is a method with a ghost trace of
  the requests it made.
- `Extractor`: the regular expression as a hand-written scanner, proved
  sound and complete against a declarative definition of a match. The
  extraction loop is a pair of methods.
- `Policy`: the video-extension filter and the keyword filter.
- `Merger`: the output file as a class `LinkFile`, whose `Merge` method
  updates the file's content in place.
- `Scrape`: the whole command, end to end, as written and with the
  empty-page guard of "## Findings".
- `Strings`, `Seqs`, `Wrappers`: the JavaScript string and array
  operations these stages use (`split`, `join`, `includes`, `toLowerCase`,
  `filter`, `reverse`, `concat`), and `Option`/`Result`.

Where the code does something other than what its own comments and
messages say, the model follows the code:

- The comments at `index.js:21-22` and `index.js:38-39` say the loop stops
  when no more messages are available. Instead, an empty channel, or a
  history that ends exactly on a page boundary before the limit is
  reached, makes `fetchMessages` read `.id` of the missing last message of
  an empty page. That throws, so the scrape ends in `.catch` with nothing
  saved. See "## Findings".
- The comment at `index.js:62` calls `messageLimit` the number of messages
  to fetch. Yet the loop always makes one request, and so may return up to
  100 messages, even when `messageLimit` is 0 or negative.
- The comment at `index.js:78` says the messages are processed "from newest
  to oldest". `fetchMessages` returns them newest first and the loop
  reverses them, so links are collected from the oldest message to the
  newest.
- The video filter's message at `index.js:106` calls a dropped link "not a
  video file". A link without any `.` is not judged by its file type:
  its "extension" is the whole link, lower-cased, and it is kept when that
  string is one of the video formats.
- The test `if (links)` at `index.js:100` is always true, because an array
  is truthy. Both filters therefore always run.
- `uniqueLinks` stays undefined when there are no links at all, although
  the report at `index.js:153` reads its length.
- The comment at `index.js:139` says only links not already in the file
  are kept, so a second scrape of the same messages should add nothing. That holds only when the file is absent, empty or ends in a line
  feed. Otherwise the first new link is glued onto the file's last line,
  and the next scrape appends it again (`Merger.UnterminatedGlues`).

## Model

| member | source | states |
|---|---|---|
| Seqs.Reverse | index.js:79 | `reverse()` keeps the length and puts element `i` at position `N - 1 - i` |
| Paginator.OlderThan | index.js:29-34 | the messages a request with cursor `before` may page through are exactly the channel's messages older than the cursor (all of them without one) |
| Paginator.Fetch | index.js:29-34 | a page holds at most 100 messages, each from the channel and older than the cursor; a page shorter than 100 holds every such message |
| Paginator.FetchMessages | index.js:23-46 | the loop's requests form a run: the first without a cursor; each later one with the id of the previous page's last message, and made only after a full page while fewer than `limit` messages were gathered; the last one did not go on. The result is the concatenation of the pages, or the empty-page error when the last page was empty. A successful result holds only messages of the channel, at most `max(limit - 1, 0) + 100` of them |
| Paginator.GatheredIsConcat | index.js:35 | after every request, `sum_messages` is the concatenation of the pages fetched so far, in fetch order |
| Paginator.LinkedExtend | index.js:28-43 | a run whose latest page was full and below the limit stays a run when the next request, made with that page's last id, is appended |
| Paginator.OlderThanMonotone | index.js:30-32 | a cursor further back never leaves more messages to fetch |
| Paginator.OlderThanShrinks | index.js:34-36 | moving the cursor to a message the request returned strictly shrinks what is left to fetch, so the loop terminates |
| Paginator.RunBound | index.js:40-42 | the loop overshoots `limit` by less than one page: at most `max(limit - 1, 0) + 100` messages are gathered |
| Paginator.RunDeterministic | index.js:23-46 | a channel and a limit determine the loop's whole run |
| Paginator.FetchNewestFirst | index.js:30-34 | on a newest-first channel, a request whose cursor is the id at position `k - 1` returns the 100 messages from position `k` on (fewer at the end) |
| Paginator.RunPages | index.js:28-43 | on a newest-first channel the `i`-th request returns the `i`-th block of 100 messages, and what is gathered is a prefix of the channel |
| Paginator.PagesWantedBounds | index.js:40 | `PagesWanted(limit)` is the fewest full pages that reach `limit` (at least one) |
| Paginator.RunGathered | index.js:23-46 | on a newest-first channel, the loop gathers the newest `100 * PagesWanted(limit)` messages, or the whole channel when it is shorter. Its last page is empty exactly when the history ends on a page boundary before that count |
| Paginator.RunNewestFirst | index.js:23-46 | as written, `fetchMessages` fails exactly when the history ends on a page boundary before `100 * PagesWanted(limit)` messages, and otherwise returns the newest that many messages. For `limit >= 1` that is between `min(N, limit)` and `min(N, limit + 99)` messages (for `limit <= 0` the one request still returns up to 100) |
| Paginator.BoundaryFailure | index.js:34-36 | as written, a channel of exactly 100 messages fetched with a limit of 200 has all 100 gathered, yet the loop fails on the empty second page |
| Paginator.FetchMessagesGuarded | index.js:23-46 | with the empty-page guard, the loop makes the same run and returns everything it gathered instead of failing: only messages of the channel, at most `max(limit - 1, 0) + 100` of them |
| Paginator.GuardedNewestFirst | index.js:21-22 | with the guard, a newest-first channel always yields its newest `100 * PagesWanted(limit)` messages, or all of them when there are fewer. For `limit >= 1` that is at least `limit` messages when the channel has them, and fewer than `limit + 100` |
| Extractor.SchemeLength | index.js:82 | the scanner finds `https://` or `http://` at a position exactly when one is there, and no other scheme length fits |
| Extractor.HostLength | index.js:82 | the same for `cdn.` and `media.` |
| Extractor.DomainLength | index.js:82 | the same for `discordapp.com/` and `discordapp.net/` |
| Extractor.HeadLength | index.js:82 | a URL head found at a position lies within the text and is 26 to 29 characters long, from `http://cdn.discordapp.com/` to `https://media.discordapp.net/` |
| Extractor.HeadLengthSound | index.js:82 | what the head scanner reports is a scheme, host and domain in sequence |
| Extractor.HeadLengthComplete | index.js:82 | any URL head at a position is the one the head scanner reports, so its length is unique |
| Extractor.LinkNoWhitespace | index.js:82 | a match of the pattern holds no white space |
| Extractor.RunLength | index.js:82 | the greedy `\S+` run holds no white space and ends at white space or at the end of the text |
| Extractor.LinkHasHead | index.js:82 | every match at a position starts with the head the scanner finds and continues without white space |
| Extractor.LinksAt | index.js:82 | every match at a position ends within the scanner's head plus its greedy run |
| Extractor.HeadAndRun | index.js:82 | a URL head followed by a non-empty run without white space is a match |
| Extractor.MatchAt | index.js:82 | the pattern matches at a position exactly when a URL head is found there and a character other than white space follows it; the match is longer than the head and lies within the text |
| Extractor.MatchAtCorrect | index.js:82-83 | when the scanner reports a match at a position, it is a match of the pattern, it ends at white space or at the end of the text, and no longer match exists there. When it reports none, no match starts there |
| Extractor.NoLinkAtEnd | index.js:82 | no match starts at the end of the text |
| Extractor.CoveredCons | index.js:83 | a position covered by a span list with a span added in front is in that span or covered by the rest |
| Extractor.ScannedEnd | index.js:83 | the empty search from the end of the text keeps the promises of a global search |
| Extractor.ScannedSkip | index.js:83 | where nothing matches, the search from the next position keeps the promises from this one |
| Extractor.ScannedCons | index.js:83 | a match found at a position, followed by a search from its end, keeps the promises |
| Extractor.Matches | index.js:83 | the global search returns matches of the pattern, each running to white space or to the end of the text, left to right and not overlapping. No match starts at a position outside them |
| Extractor.ScannedHead | index.js:83 | the first match of a search is at the first position where the pattern matches |
| Extractor.ScannedTail | index.js:83 | after its first match, a search goes on as a search from that match's end |
| Extractor.ScannedEmpty | index.js:83-86 | a search finds nothing (`match` returns `null`) exactly when the pattern matches nowhere |
| Extractor.ScannedAgree | index.js:83 | two span lists that keep the promises are both empty, or share their first span and go on from its end |
| Extractor.MatchesUnique | index.js:83 | the promises of a global search determine its result |
| Extractor.TextLinks | index.js:83-89 | every link found in a text is a match of the pattern without white space. There is one per match, and it is the text of that match |
| Extractor.LinksAppend | index.js:79-96 | the links of consecutive stretches of messages follow one another |
| Extractor.LinksMember | index.js:79-96 | a link is collected exactly when one of the messages contributes it, from its text or its attachments |
| Extractor.OlderLinksFirst | index.js:79 | links of older messages are collected before links of newer ones |
| Extractor.CollectMessage | index.js:83-95 | one pass of the loop appends the message's text matches, then its attachment URLs in order |
| Extractor.ExtractLinks | index.js:79-96 | the extraction loop collects the links of the messages taken in reverse, each message's text matches before its attachments |
| Seqs.Filter | index.js:140 | `Array.prototype.filter`: an in-order subsequence holding exactly the kept elements, every copy of them |
| Seqs.FilterUnique | index.js:140 | any in-order subsequence that keeps exactly the kept elements, every copy of them, is the filter's result |
| Seqs.FilterFilter | index.js:101-120 | filtering twice is filtering once by the conjunction |
| Seqs.ReverseAppend | index.js:79 | reversing a concatenation reverses and swaps its parts |
| Strings.Split | index.js:136 | `split(sep)` always yields at least one piece (`[""]` for the empty text) |
| Strings.Join | index.js:144 | `join(sep)` starts with the first piece and ends with the last |
| Strings.SplitPieces | index.js:136 | no piece of `split(sep)` holds the separator |
| Strings.JoinSplit | index.js:136 | `split(sep)` followed by `join(sep)` gives back the text |
| Strings.SplitJoin | index.js:136-144 | `join(sep)` followed by `split(sep)` gives back pieces without the separator |
| Strings.SplitAround | index.js:136-144 | splitting around one separator splits each side |
| Strings.SplitLast | index.js:103 | the last piece of `split(".")` is the longest suffix of the text without a `.` |
| Strings.Includes | index.js:114 | `includes(w)` holds exactly when `w` occurs at some position |
| Strings.ToLower | index.js:103 | `toLowerCase` maps each ASCII capital to its small letter and keeps every other character |
| Policy.Extension | index.js:103 | the extension is no longer than the link and holds no `.` |
| Policy.ExtensionIsLastSegment | index.js:103 | a link's extension is its text after the last `.`, or the whole link when it has none, lower-cased |
| Policy.ExtensionWithoutDot | index.js:103 | a link without a `.` is its own extension, lower-cased |
| Policy.VideoFilter | index.js:101-110 | with `videosOnly ?? false` unset, all links are kept. When set, the kept links are exactly those whose extension is a video format, in order, every copy of them |
| Policy.Excluded | index.js:113-118 | a link is removed exactly when it includes one of the keywords |
| Policy.KeywordFilter | index.js:112-120 | the kept links are exactly those that include no keyword, in order, every copy of them |
| Policy.NoKeywordsKeepAll | index.js:112-120 | with no exclusion keywords every link is kept |
| Policy.EmptyKeywordDropsAll | index.js:113-116 | the empty keyword is included in every link, so it drops them all |
| Policy.Screen | index.js:100-121 | a link survives the screening exactly when it passes the video check (if enabled) and includes no keyword |
| Policy.FiltersCommute | index.js:100-121 | applying the keyword filter first gives the same list |
| Merger.NewLinks | index.js:140 | the unique links are exactly the links not among the file's lines, in order, every copy of them |
| Merger.LinkFile.Merge | index.js:127-149 | with no links nothing happens and `uniqueLinks` stays undefined. Otherwise the unique links are computed against the existing lines (none when the file is absent) and, when there are any, appended joined by line feeds with a final line feed |
| Merger.MergedContent | index.js:127-149 | the file changes exactly when at least one link is new |
| Merger.MergeOnlyAppends | index.js:143-144 | a merge never rewrites the file: an existing file keeps its content as a prefix, and an absent one is created holding only the new lines |
| Merger.NothingNewNoWrite | index.js:140-148 | when every link is already a line of the file, the file is not touched |
| Merger.AppendedLines | index.js:144 | the appended block splits into the new links followed by one empty line |
| Merger.MergedLines | index.js:132-144 | when no link holds a line feed and at least one link is new, after a merge into a file that is absent, empty or ends in a line feed, the file's line sequence is its old lines (without the empty line after the final line feed), then the new links, then one empty line; the file still ends in a line feed |
| Merger.MergedIntoText | index.js:136-144 | the lines of a non-empty text ending in a line feed, before and after the new lines are appended |
| Merger.MergedLineSet | index.js:132-144 | under the same conditions, the same as a set: after the merge every line is an old line, a new link or the empty line, and each of those is a line |
| Merger.TerminatedLines | index.js:136-144 | the lines of a text ending in a line feed, and of that text with more appended |
| Merger.MergeIdempotent | index.js:127-149 | when the file is absent, empty or ends in a line feed and no link holds a line feed, merging the same links a second time leaves the file as the first merge left it |
| Merger.UnterminatedGlues | index.js:143-144 | a file not ending in a line feed breaks that: merging `x` into `a` gives `ax` plus a line feed, gluing the link onto the last line, and a second merge appends `x` again |
| Scrape.MessageLimit | index.js:65 | the configured `messageLimit`, or 100 when none is set |
| Scrape.ScrapedLinks | index.js:79-121 | a link is kept exactly when one of the fetched messages contributes it and it passes the video check (when enabled) and includes no keyword |
| Scrape.Scrape | index.js:70-161 | the command as written: it runs `fetchMessages` with `messageLimit ?? 100`. When the fetch throws on an empty page the scrape fails and the file is left untouched. Otherwise it reports the screened links and `uniqueLinks` and leaves the file as the merge specifies |
| Scrape.ScreenAndMerge | index.js:76-149 | the body of `.then`: extraction, both filters and the merge, reporting the screened links and `uniqueLinks` |
| Scrape.ScrapeGuarded | index.js:70-149 | the command with the empty-page guard: it never fails, and always screens and merges what the guarded fetch gathered |
| Scrape.ScrapedLinkOrigin | index.js:79-121 | every kept link comes from a fetched message's text or attachments, passes the video check when enabled, and includes no keyword |
| Scrape.ScrapedLinkKept | index.js:79-121 | every link of a fetched message that passes the policy is kept |
| Scrape.RescrapeAddsNothing | index.js:70-149 | when the file is absent, empty or ends in a line feed and no kept link holds a line feed, re-running the command over the same messages with the same settings adds nothing to the file |

## Findings

| source | as written | input that shows it | evidently intended | confidence | as-written member | corrected member |
|---|---|---|---|---|---|---|
| index.js:34-36 | `last_id = messages.last().id` runs before the short-page test, so an empty page throws and the whole scrape ends in `.catch` with nothing saved | a newest-first channel of exactly 100 messages with `messageLimit` 200. The second request returns an empty page after all 100 messages were gathered. An empty channel fails the same way | the comments at lines 21-22 and 39: stop when no more messages are available, and return what was gathered | high; not executed | Paginator.BoundaryFailure | Paginator.GuardedNewestFirst |

`Paginator.FetchMessages` and `Paginator.RunNewestFirst` model the loop as
written, and `Scrape.Scrape` runs it: on the failing input the scrape fails
and the file is not touched. `Paginator.FetchMessagesGuarded` adds the guard
`if messages is empty, break` after the push, and `Scrape.ScrapeGuarded`
runs the command with it, so that what was gathered is screened and saved.

## Left out

- The chat client: logging in, the `ready` handler, the `messageCreate`
  trigger, and the test that the command comes from the account itself
  (`index.js:7-19`, `50-58`, `165`). A scrape's inputs are parameters: the
  channel's history, newest first, and a `Config`.
- Command parsing and the configuration file (`index.js:56-70`). Only the
  values a scrape reads are modelled: `messageLimit ?? 100`,
  `videosOnly ?? false`, `videoFormats` and `excludeKeywords`. Missing
  `videoFormats` or `excludeKeywords`, which would throw, are not modelled.
- All logging, the rate-limit warning (`index.js:67`) and the final report
  (`index.js:151-156`). That includes reading `uniqueLinks.length` at line
  153 when it is undefined, which throws into `.catch`.
- The file system: the output file is an `Option<string>` held by
  `LinkFile` (absent or its content). The folder and file name
  (`index.js:124`), encodings and I/O errors are not modelled.
- The platform's fetch is modelled as a function over the channel's history:
  the first 100 messages older than the cursor. Network errors, rate-limit
  rejections (`rejectOnRateLimit`) and concurrent edits to the channel are
  not modelled.
- Promises and `.catch` (`index.js:75-76`, `158-161`): the as-written
  failure of an empty page is the `Failure` outcome of
  `Paginator.FetchMessages`. Other thrown errors are not modelled.
- The regular expression engine: only this one pattern is modelled, by a
  hand-written scanner.
- Strings.ToLower: only ASCII capitals are lowered, because full Unicode
  case mapping is not modelled. Extensions that differ only in non-ASCII
  case may therefore compare differently than in JavaScript.
- Paginator.FetchMessages: `limit` is an integer, because fractional or
  non-numeric `messageLimit` values are not modelled.
- JavaScript strings are sequences of UTF-16 code units. Here they are
  sequences of Dafny characters, and white space is ECMAScript's `\s` set.
