# MoonTV upstream interpretation and staged search, in Dafny

This project models the two pure cores of the MoonTV aggregator's server side:

- **Upstream result interpretation** (`src/lib/downstream.ts`). A record of an
  upstream video site's list becomes a search result. The play-URL field is
  split into its `$$$`-separated play sources, and the source with the most
  `$http(s)://….m3u8` links supplies the episodes. A keyword search reads
  page 1 and then a capped number of further pages, concatenated in page
  order. A detail request is answered either from the JSON detail endpoint
  (episodes from the first play source, with a fallback to addresses in the
  description) or, for sources that name a detail site, from that site's HTML
  page (the dated `ffzy` link layout first for the `ffzy` source, then the
  general one).
- **Staged query relaxation** (`src/app/api/search/route.ts`). `performSearch`
  searches every configured site and concatenates the answers in site order,
  answering nothing for a blank query. `GET` retries a query that finds
  nothing. First it tries the part before the first separator character, then
  that part with its digits removed.

Every network exchange is a parameter:

- `net(query, page)` is one site's answer to one search page;
- `net(site, query, page)` is the same answer as the route sees it;
- `fetchJson(url)` and `fetchPage(url)` are the answers to detail requests.

The regular expressions are modelled as explicit scanners with JavaScript
semantics:

- the leftmost match wins;
- `[^"'\s]+?` takes the shortest body after which the tail matches;
- a global `match` resumes right after each match;
- `\s` is JavaScript's exact white-space set;
- `\d` is the ASCII digits.

`split` with a string separator is a left-to-right, non-overlapping cut.

Modules, one per file:

| module | file | contents |
|---|---|---|
| `Outcomes` | outcomes.dfy | `Option` and `Result` |
| `Seqs` | seqs.dfy | `filter`, `flat`, `Array.from(new Set(…))`, `map` |
| `JsString` | jsstring.dfy | white space, `indexOf`, `split`/`join`, `trim`, the `\s+` collapse |
| `Patterns` | patterns.dfy | the link, year, heading and sketch-block regular expressions |
| `Links` | links.dfy | episode extraction and link clean-up |
| `Downstream` | downstream.dfy | item mapping, paginated search, detail requests |
| `SearchRoute` | search_route.dfy | `performSearch` and the `GET` fallback |

## Model

| member | source | states |
|---|---|---|
| `JsString.Split` | src/lib/downstream.ts:34 | joining the parts with the separator gives the input back, there is at least one part, no part contains the separator, and when the separator occurs the first part is everything before its first occurrence |
| `JsString.SplitAtLeftmost` | src/lib/downstream.ts:34 | the split cuts at the first occurrence of the separator and splits the rest after it the same way |
| `JsString.IndexOfLeftmost` | src/lib/downstream.ts:47 | `indexOf` finds the first occurrence at or after the start position |
| `JsString.SplitJoinChar` | src/lib/downstream.ts:220 | splitting at one character undoes joining parts that do not contain it |
| `JsString.SplitCharFirst` | src/lib/downstream.ts:223-224 | the first part of a split at a character ends at its first occurrence, and the remaining parts are the split of what follows |
| `JsString.Trim` | src/lib/downstream.ts:59 | the trimmed string is a slice of the input, starting after the leading white space, with only white space after it; it is empty exactly when the input is all white space, and otherwise starts and ends with a non-space |
| `JsString.TrimKeepsText` | src/lib/downstream.ts:59 | trimming removes white space only |
| `JsString.CollapseWhitespace` | src/lib/downstream.ts:59 | after the collapse no two neighbouring characters are white space, every white-space character is a plain space, and the first and last characters keep their white-space status |
| `JsString.CollapseKeepsText` | src/lib/downstream.ts:59 | the collapse never changes the non-space text |
| `JsString.CollapseOfCollapsed` | src/lib/downstream.ts:59 | a text whose white space is already single plain spaces, text without white space included, is left unchanged |
| `JsString.CollapseAround` | src/lib/downstream.ts:59 | a white-space run between two pieces of text becomes exactly one space, and each piece collapses on its own |
| `JsString.CollapseAppend` | src/lib/downstream.ts:59 | the collapse of a text that ends in a non-space, followed by anything, is the two collapses side by side |
| `JsString.TrimAround` | src/lib/downstream.ts:59 | trimming removes exactly the white space around a text that has none at its ends, and nothing else |
| `Seqs.Dedup` | src/lib/downstream.ts:45 | the same elements, each once, ordered by their first occurrence in the input |
| `Patterns.MatchEnd` | src/lib/downstream.ts:31 | a match has the optional `$`, a scheme, the suffix at its end, and no quote or white space; it is lazy: it ends with the tail at the first position after the scheme where the tail fits, reached over URL characters only |
| `Patterns.MatchEndStopsAtFirstTail` | src/lib/downstream.ts:31 | on two `$`-links back to back, the match from the first `$` ends at the first `.m3u8`, not at the second |
| `Patterns.LazyIsShortest` | src/lib/downstream.ts:31 | the lazy run stops at the first position after which the tail matches, over URL characters only |
| `Patterns.LazyNoneIsComplete` | src/lib/downstream.ts:31 | when the lazy run finds no end, no position reachable over URL characters lets the tail match |
| `Patterns.MatchEndComplete` | src/lib/downstream.ts:31 | a match exists wherever the optional `$`, a scheme, a non-empty run of URL characters and the suffix line up: the scanner misses no link |
| `Patterns.Scan` | src/lib/downstream.ts:38 | every element of a global match is link-shaped, and there is none exactly when no match starts anywhere |
| `Patterns.ScanLeftmost` | src/lib/downstream.ts:31-38 | a global match takes the leftmost match, then resumes right after it |
| `Patterns.FirstFourDigits` | src/lib/downstream.ts:65 | the result is empty exactly when there is no four-digit run; otherwise it is four ASCII digits that occur in the input, with no earlier run |
| `Patterns.HeadingAt` | src/lib/downstream.ts:304 | the heading captured at a position is non-empty and has no `<`; it is captured exactly when `<h1`, attributes without `>`, a `>`, text without `<` and `</h1>` follow there, and it is that text |
| `Patterns.SketchAt` | src/lib/downstream.ts:308-310 | the block captured at a position has no `</div>`; it is captured exactly when `<div`, attributes without `>` that contain `class=` with a quoted `sketch`, a `>`, the shortest text and `</div>` follow there, and it is that text |
| `Patterns.FirstGroup` | src/lib/downstream.ts:304-311 | there is no group exactly when no position matches, and a group comes from a matching position |
| `Patterns.FirstGroupLeftmost` | src/lib/downstream.ts:304-311 | a non-global `match` answers with the group of the leftmost matching position |
| `Links.CleanLink` | src/lib/downstream.ts:46-48 | the result is a prefix of the link without its first character; it ends at the first `(` when one stands after the first character, and is otherwise all of it |
| `Links.CleanLinkShape` | src/lib/downstream.ts:45-49 | a cleaned `$`-prefixed match starts with `http://` or `https://` and contains no `(`, quote or white space |
| `Links.CleanLinks` | src/lib/downstream.ts:45-49 | the addresses are exactly the cleanings of the matches, and there are none exactly when there are no matches |
| `Links.CleanLinksOnePerDistinctMatch` | src/lib/downstream.ts:45 | one address per distinct match, in order of first appearance |
| `Links.CleaningAfterDedupCanRepeat` | src/lib/downstream.ts:45-49 | two distinct matches differing only after a `(` clean to the same address twice |
| `Links.PickGroup` | src/lib/downstream.ts:37-42 | no group is chosen exactly when every group has no match; otherwise the chosen group has a match, no group has more, and every earlier group has fewer |
| `Links.ChosenGroupUnique` | src/lib/downstream.ts:39 | the strict comparison singles out one group |
| `Links.ExtractEpisodes` | src/lib/downstream.ts:25-50 | an absent or empty field gives no episodes, and every episode is a cleaned address |
| `Links.ExtractEpisodesChoice` | src/lib/downstream.ts:34-45 | the episodes are the cleaned matches of the chosen play source |
| `Links.ExtractEpisodesEmpty` | src/lib/downstream.ts:25-42 | there are no episodes exactly when the field is empty or no play source has a match |
| `Links.ExtractEpisodesSingleSource` | src/lib/downstream.ts:34-45 | a field without `$$$` is scanned as a whole |
| `Links.EpisodeUrl` | src/lib/downstream.ts:222-225 | an entry's address contains no `$` |
| `Links.EpisodeUrlBetweenDollars` | src/lib/downstream.ts:222-225 | an entry's address is the text between its first `$` and the next `$` or the end, and empty when the entry has no `$` |
| `Links.DetailPlayEpisodes` | src/lib/downstream.ts:216-231 | an absent or empty field gives nothing, and every episode starts with a scheme and contains no `$` |
| `Links.DetailPlayEpisodesOfEntries` | src/lib/downstream.ts:217-229 | for `#`-joined entries the episodes are the entries' addresses that start with a scheme, in entry order, repeats kept |
| `Links.DetailUsesFirstSource` | src/lib/downstream.ts:217-219 | only the first play source matters |
| `Links.ContentStripIsIdle` | src/lib/downstream.ts:235-236 | the `$` strip of the description fallback never changes a match |
| `Links.DetailEpisodes` | src/lib/downstream.ts:213-237 | every episode of a JSON detail starts with a scheme |
| `Links.DetailEpisodesFallback` | src/lib/downstream.ts:233-237 | the description is read only when the play sources give nothing and it is non-empty, and then its bare `.m3u8` matches are the episodes |
| `Links.PageMatches` | src/lib/downstream.ts:283-294 | every match of a detail page is a `$`-prefixed link of the general or the `ffzy` shape |
| `Links.PageEpisodes` | src/lib/downstream.ts:283-301 | every episode of a detail page is a cleaned address |
| `Links.PageEpisodesPattern` | src/lib/downstream.ts:285-294 | the `ffzy` pattern is used only for the `ffzy` source and only when it matches somewhere; otherwise the general pattern is used |
| `Downstream.NormalizeTitle` | src/lib/downstream.ts:59 | the title keeps the name's text, has no white space at either end, and has only single plain spaces inside; it is empty exactly when the name is blank |
| `Downstream.NormalizeTitleIdempotent` | src/lib/downstream.ts:59 | normalizing a title twice is the same as once |
| `Downstream.NormalizeTitleJoins` | src/lib/downstream.ts:59 | two words of a name separated by any white-space run are joined by one plain space |
| `Downstream.NormalizeTitleStrips` | src/lib/downstream.ts:59 | white space around an already normalized name is removed and nothing else changes |
| `Downstream.ItemYear` | src/lib/downstream.ts:65 | an absent field gives `''`; otherwise the year is empty or four ASCII digits, found as the first four-digit run of the field, and is non-empty whenever the field has such a run |
| `Downstream.MapItem` | src/lib/downstream.ts:53-70 | mapping fails exactly when the name is missing; otherwise the result carries the site's key and name, the record's id, poster, class, type and douban id, the normalized name as title, the episodes extracted from the play URL, the first four-digit run of the year, and the cleaned description |
| `Downstream.MapItemRemap` | src/lib/downstream.ts:57-70 | a mapped title is already normal: renaming the record to it maps to the same result |
| `Downstream.MapPage` | src/lib/downstream.ts:108-110 | a page fails exactly when one of its records has no name; otherwise every record is mapped, in order |
| `Downstream.MaxSearchPages` | src/lib/downstream.ts:8-9 | the page limit is the setting when that is a non-zero number, and 5 when it is absent, non-numeric or 0 |
| `Downstream.PageCount` | src/lib/downstream.ts:113 | the page count is the reported count when that is a non-zero number, and 1 otherwise |
| `Downstream.ExtraPages` | src/lib/downstream.ts:114-119 | the further pages are exactly 2 up to the smaller of the page count and the limit, ascending |
| `Downstream.PageContribution` | src/lib/downstream.ts:126-153 | a rejected or failed page contributes nothing; a page with a list contributes its mapped records when every record maps, and nothing when one throws |
| `Downstream.SearchFromApi` | src/lib/downstream.ts:72-172 | an unusable first page, or one with a record that throws, gives no results and no further pages |
| `Downstream.SearchPagesInOrder` | src/lib/downstream.ts:108-165 | page 1's records come first, then every further page in ascending order, each page's own contribution |
| `Downstream.SearchPageBudget` | src/lib/downstream.ts:113-119 | only page 1 is consulted when it is unusable, otherwise the page count capped by the limit, and never more than the limit |
| `Downstream.SevenPagesCappedAtFive` | src/lib/downstream.ts:8-9 | with a page count of 7 and the default limit, pages 2 to 5 are requested |
| `Downstream.SearchResultsAttributed` | src/lib/downstream.ts:62-63 | every search result names the site it came from |
| `Downstream.FailedPageIsolated` | src/lib/downstream.ts:141-165 | a failed further page empties its own slot and leaves every other page's contribution unchanged |
| `Downstream.DetailPageUrl` | src/lib/downstream.ts:266 | the detail page address is the detail site, then `/index.php/vod/detail/id/`, then the id, then `.html` |
| `Downstream.DetailPageUrlId` | src/lib/downstream.ts:266 | the id can be read back from the detail page address, so different ids give different addresses |
| `Downstream.PageTitle` | src/lib/downstream.ts:304-305 | the title is `''` without a heading, and otherwise is the trimmed text of the leftmost heading, which has no `<` |
| `Downstream.PageCover` | src/lib/downstream.ts:314-315 | the cover is `''` exactly when the page has no `.jpg` address, and otherwise is the leftmost such address |
| `Downstream.PageDesc` | src/lib/downstream.ts:308-311 | the description is plain `''` exactly when no sketch block matches, and otherwise is the cleaned leftmost block, which has no `</div>` |
| `Downstream.HandleSpecialSourceDetail` | src/lib/downstream.ts:262-330 | a rejected page request is the rejection error, a failed one an error naming the status, and an unreadable body an error; the detail exists exactly when the page answers, and carries code 200, the page address, the source's key and name, the id, and cleaned episode addresses |
| `Downstream.SpecialDetailFromPage` | src/lib/downstream.ts:282-329 | an answered page gives its episodes, its title, its cover and its description, each read from that page |
| `Downstream.GetDetailFromApi` | src/lib/downstream.ts:177-260 | a detail carries code 200, the source's key and name, the id, and episodes that start with a scheme; the fields of a JSON detail are stated by `Downstream.DetailFromFirstRecord` |
| `Downstream.JsonDetail` | src/lib/downstream.ts:185-259 | the JSON detail fails exactly when the answer is unusable, with an error for each reason; otherwise it carries code 200, the source's key and name, the id, the endpoint's address, and the first record's episodes, title, cover, type, year, area, director, actors and remarks, with the record's content cleaned as the description (absent content stays absent) |
| `Downstream.DetailRouting` | src/lib/downstream.ts:181-183 | a source with a detail site is answered from its HTML page and never from the JSON endpoint, and the other sources never from an HTML page |
| `Downstream.DetailErrors` | src/lib/downstream.ts:197-210 | the JSON detail fails exactly when the answer is unusable: rejected, a failure status (named), an unreadable body, or a missing or empty list |
| `Downstream.DetailFromFirstRecord` | src/lib/downstream.ts:212-259 | a JSON detail reports the first record at the endpoint's address: its episodes, title, cover, type, four-digit year, area, director, actors and remarks, and its content cleaned as the description (absent content stays absent) |
| `SearchRoute.PerformSearch` | src/app/api/search/route.ts:15-26 | a blank query, or no sites, gives no results |
| `SearchRoute.PerformSearchMembership` | src/app/api/search/route.ts:23-25 | a result is found exactly when some site returns it |
| `SearchRoute.PerformSearchLength` | src/app/api/search/route.ts:23-25 | the number of results is the sum of the sites' numbers |
| `SearchRoute.PerformSearchSiteOrder` | src/app/api/search/route.ts:23-25 | the results come in site order: two lists of sites give the first list's results, then the second's |
| `SearchRoute.PerformSearchSingleSite` | src/app/api/search/route.ts:23-25 | with one site, the results are that site's list exactly, in the order the site returns it |
| `SearchRoute.PerformSearchIsSiteLists` | src/app/api/search/route.ts:23-25 | the results are the first site's list, whole and in order, followed by the results of the other sites |
| `SearchRoute.PerformSearchAttributed` | src/app/api/search/route.ts:23-25 | every result names one of the configured sites |
| `SearchRoute.SimplifiedQuery` | src/app/api/search/route.ts:56-61 | the simplified query is the longest prefix without a separator: shorter than the query exactly when the query has a separator, and then followed by one |
| `SearchRoute.SimplifiedDiffers` | src/app/api/search/route.ts:64 | a query with a separator always simplifies to a different query |
| `SearchRoute.RemoveDigits` | src/app/api/search/route.ts:74 | the result holds exactly the non-digit characters, and is shorter exactly when there is a digit |
| `SearchRoute.RemoveDigitsKeepsOrder` | src/app/api/search/route.ts:74 | removing digits keeps the other characters in order |
| `SearchRoute.Fallback` | src/app/api/search/route.ts:33-86 | at most three queries; none, and no results, for an absent or empty parameter; the first query is the parameter, and the answer is the last query's results |
| `SearchRoute.Get` | src/app/api/search/route.ts:44-86 | at most three queries, none for an absent or empty parameter; the first query is the parameter; the answer is the search of every configured site, with the page limit taken from the setting, for the last query; every result names one of the configured sites |
| `SearchRoute.OutcomeOverSites` | src/app/api/search/route.ts:46-86 | an answer that is the whole-site search of its last query is exactly that search's results for it, and names only configured sites |
| `SearchRoute.GetIsFallback` | src/app/api/search/route.ts:44-86 | the route is the staged fallback over the search of every site with the configured page limit |
| `SearchRoute.GetSecondSearchWhen` | src/app/api/search/route.ts:53-66 | the route retries with the simplified query exactly when the original finds nothing on any site and has a separator after a non-separator first character |
| `SearchRoute.GetThirdSearchWhen` | src/app/api/search/route.ts:69-80 | the route tries the digit-free query exactly when the simplified one found nothing on any site and has a digit and other characters |
| `SearchRoute.OutcomeAttributed` | src/app/api/search/route.ts:46-86 | an answer that is the whole-site search of its last query, or nothing, names only configured sites |
| `SearchRoute.FallbackQueriesShrink` | src/app/api/search/route.ts:61-79 | every query is non-empty and strictly shorter than the one before |
| `SearchRoute.NoFallbackWhenFound` | src/app/api/search/route.ts:48-53 | a query that finds something is answered as it is, without retries |
| `SearchRoute.SecondSearchWhen` | src/app/api/search/route.ts:53-66 | the simplified query is tried exactly when the original finds nothing and has a separator after a non-separator first character |
| `SearchRoute.ThirdSearchWhen` | src/app/api/search/route.ts:69-80 | the digit-free query is tried exactly when the simplified one found nothing and has a digit and other characters |
| `SearchRoute.FallbackExample` | src/app/api/search/route.ts:56-79 | "庆余年2.第二季" simplifies to "庆余年2", whose digit-free form is "庆余年" |

## Left out

- Network I/O, `AbortController` and the 8- and 10-second timeouts are not modelled. A request that rejects is the `Rejected` answer.
- `Promise.all` concurrency is not modelled. Answers are collected in request order, which is what `Promise.all` guarantees.
- JSON parsing is not modelled. A body is an already-decoded `Envelope`, and a body that does not parse is `None`.
- A record field of the wrong JSON type is not modelled. Record fields are strings, or integers for the Douban id.
- `cleanHtmlTags` lives in `src/lib/utils`, which is not part of this model. A cleaned description is recorded as `Cleaned(input)`.
- `API_CONFIG`, `getApiSites` and `getCacheTime` live in `src/lib/config`, which is not part of this model. The JSON detail path is a parameter.
- The search URLs, built with JavaScript's built-in `encodeURIComponent`, are not modelled: `net` is indexed by query and page number instead.
- Reading `NEXT_PUBLIC_SEARCH_MAX_PAGE` from the environment is not modelled. `SearchRoute.Get` takes the setting as a parameter, and `MaxSearchPages` models `Number(…) || 5` with `None` for an absent or non-numeric setting.
- `Downstream.PageCount`: a fractional or non-numeric `pagecount` is not modelled, because the page count is an integer here.
- `Downstream.MaxSearchPages`: a fractional page limit is not modelled, for the same reason.
- Strings are sequences of Unicode scalar values, whereas JavaScript strings are UTF-16 code units: a string with a lone surrogate cannot be expressed, and positions count characters, not code units. Every position the source computes lies next to a character it searched for, and every such character (the ASCII delimiters, the separators of the search fallback, among them `·：～—，！`, and the white space that `trim` and `\s` match, including U+3000 and U+FEFF) is a single UTF-16 code unit, so the results agree on every string without a lone surrogate.
- `NextResponse`, the Cache-Control header and URL decoding of `q` are not modelled.
- The 500 response of `GET` is not modelled. It cannot be reached: `searchFromApi` catches everything, so `performSearch` never rejects.
- `SearchRoute.Fallback` takes the whole-site search as a function of the query. `SearchRoute.Get` instantiates it with `PerformSearch` over `SearchFromApi`.
- `src/components/AuthProvider.tsx` is a React component driven by storage and routing, and is not part of this model.

## Notes on the source

- The `simplifiedQuery !== originalQuery` check at `src/app/api/search/route.ts:64` always holds once a separator was found (`SearchRoute.SimplifiedDiffers`).
- The `replace(/^\$/, '')` of the description fallback at `src/lib/downstream.ts:236` never changes anything, because its pattern has no `$` (`Links.ContentStripIsIdle`).
- Duplicates are removed before the `(` suffix is cut, so the episode list of a play source can repeat an address (`Links.CleaningAfterDedupCanRepeat`).
