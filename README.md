# WellPlayer scraper backend, modelled in Dafny

The WellPlayer scraper backend is a small Flask service. It looks up movies and TV shows on
TMDB and then scrapes streaming links for them from the vidsrc.pro embed pages. This project
models the logic inside its route handlers, leaving the web plumbing out. It proves properties
of that logic:

- `QueryParsing` (`query.dfy`): `parse_query_for_language` takes a free-text query apart on
  whitespace, drops the language keywords in any letter case, and joins the rest back together.
- `Scraper` (`scraper.dfy`): `scrape_vidsrc_pro`.
  - It builds the embed page address from the request.
  - It reads the server tabs of that page.
  - It asks the source API for one link per tab.
  - It labels each link with a language taken from the tab's name.

  The embed page fetch, the source API and `urljoin("https:", ·)` are parameters of the model.
  The model also reports the addresses it requested, so that "no request was made" can be
  stated and proved.
- `LinkDedup` (`dedup.dfy`): `get_movie_details`.
  - It removes links with repeated addresses through a dictionary keyed by URL. This follows
    Python's insertion-ordered `dict`: an address keeps the position of its first link and takes
    the value of its last one.
  - An empty link list becomes a "not found" answer.
- `Catalog` (`catalog.dfy`): the projection of TMDB search results in `search` and the season
  filter in `get_tv_details`.
  - JSON members are `Field`s, which tell an absent member, a null member and a present one
    apart, as `dict.get` does.
  - An expression that raises a `TypeError` makes the answer fail.
- `Episodes` (`episodes.dfy`): `get_episodes`. It copies every scraped link once per episode
  and rewrites a trailing `e<digits>` or `episode=<digits>` in its address.
- `Json` (`json.dfy`) and `Text` (`text.dfy`) hold the shared pieces.
  - `Json` has optional values and JSON object members.
  - `Text` has the parts of Python's `str` the backend uses: `split()` with the full
    `isspace()` whitespace set, `" ".join`, `strip()`, `lower()` on the characters that can
    become ASCII letters, the `in` substring test, and `str()` of an integer.

The source's loops are methods with loop invariants, each proved against a function that
specifies it:

- `Scraper.ScrapeVidsrcPro` against `Scrape`;
- `Catalog.Search` against `SearchResults`;
- `Episodes.BuildEpisodeLinks` against `RewriteUrl`.

The dictionary comprehension, the list comprehensions and the if/elif chains are functions.
Lemmas about those functions state what the code promises.

## Model

| member | source | states |
|---|---|---|
| Text.JoinSpace | app.py:42 | definition of `" ".join`: the tokens with one space between neighbours; the result starts with the first token |
| Text.IsSpace | app.py:41 | definition of `str.isspace()` for one character, the whitespace set of `split()` and `strip()`: the ASCII whitespace and separator controls, U+0085, U+00A0, U+1680, U+2000-U+200A, U+2028, U+2029, U+202F, U+205F and U+3000 |
| Text.Words | app.py:41 | every token of `split()` is non-empty and holds no whitespace |
| Text.WordsOfJoin | app.py:41-42 | splitting what `" ".join` built from tokens gives those tokens back |
| Text.JoinSpaceSingleSpaces | app.py:42 | `" ".join` of tokens has no whitespace but single `' '` characters, each between two non-whitespace characters |
| Text.WordsOfBlank | app.py:41-45 | a string of whitespace only has no tokens |
| Text.Strip | app.py:75 | `strip()` gives the slice of the string that has only whitespace before and after it and neither starts nor ends with whitespace |
| Text.PrefixOfSuffix | app.py:75 | dropping trailing whitespace from what is left after dropping leading whitespace gives a slice with only whitespace around it |
| Text.StripLeft | app.py:75 | it drops exactly a whitespace prefix |
| Text.StripRight | app.py:75 | it drops exactly a whitespace suffix |
| Text.Lower | app.py:41 | definition of `lower()`: each character mapped on its own, ASCII capitals to small letters, KELVIN SIGN to `k`, capital I with dot above to `i` and a combining dot, every other character unchanged |
| Text.LowerKeepsNonSpace | app.py:41 | lower-casing a token creates no whitespace |
| Text.LowerAvoids | app.py:97-98 | lower-casing produces a lower-case ASCII letter other than k and i only from that letter or its capital |
| Text.Contains | app.py:97-98 | definition of `p in s`: `s` starts with `p`, or `s` is not empty and its tail contains `p` |
| Text.ContainsOccurs | app.py:97-98 | Python's `in` on strings holds exactly when the pattern occurs at some position |
| Text.NatToString | app.py:200-201 | `str()` of a natural number: its decimal digits, most significant first, at least one and all ASCII digits |
| Text.IntToString | app.py:200-201 | `str()` of an integer is non-empty and starts with a digit exactly when the integer is non-negative |
| Text.DigitsValueOfNat | app.py:200-201 | reading back the decimal digits of a natural number gives the number |
| Text.IntToStringInjective | app.py:200-201 | different integers have different decimal forms |
| Text.TrailingDigits | app.py:200-201 | the trailing run of ASCII digits is all digits and is maximal |
| Text.TrailingDigitsAfter | app.py:200-201 | after a non-digit, the digits that follow are the whole trailing run |
| Text.SplitBeforeDigits | app.py:62 | two strings that end in the same separator and digits split the same way |
| QueryParsing.IsLanguageKeyword | app.py:39-41 | definition of `part.lower() in language_keywords`, with `LanguageKeywords` the eight-entry list of app.py:39 in its order |
| QueryParsing.BaseWords | app.py:41 | a token is kept exactly when it is a token of the query whose lower-case form is not a keyword |
| QueryParsing.BaseWordsAppend | app.py:41 | filtering keeps the tokens in their original order |
| QueryParsing.ParseQueryForLanguage | app.py:37-47 | the second component is the query unchanged; with no kept token the base query is the query; otherwise the base query splits back into exactly the kept tokens and its only whitespace is single spaces between them, so it is their `" ".join` |
| QueryParsing.TwoWordKeywordNeverMatches | app.py:39-41 | no token lower-cases to the two-word keyword "dual audio" |
| QueryParsing.DualAndAudioSurvive | app.py:39-41 | "dual" and "audio" are kept in any letter case |
| QueryParsing.BlankQueryFallsBack | app.py:44-47 | an empty or whitespace-only query is its own base query |
| QueryParsing.ParseIdempotent | app.py:37-47 | parsing the base query again gives it back |
| QueryParsing.BaseWordsOfKept | app.py:41 | filtering tokens none of which lower-cases to a keyword keeps them all |
| Scraper.EmbedUrl | app.py:58-64 | definition: `<base>/movie/<id>` for "movie", `<base>/tv/<id>/<season>-<episode>` for "tv", no address otherwise (the scraper then returns no links) |
| Scraper.EmbedUrlShape | app.py:58-64 | an address is built exactly for "movie" and "tv"; it lies under `https://vidsrc.pro/embed/<type>/` and ends in the id, or in id/season-episode |
| Scraper.EmbedUrlInjective | app.py:58-62 | different requests give different addresses when season and episode are decimal |
| Scraper.LangLabel | app.py:96-99 | definition of the if/elif chain: Hindi when the lower-cased name contains "hindi", else Dubbed when it contains "dub", else Original for "VidSrc" and "2Embed", else Unknown |
| Scraper.LangLabelSpec | app.py:96-99 | Hindi exactly when "hindi" occurs in the lower-cased name; Dubbed exactly when "dub" occurs and "hindi" does not; Original exactly when neither occurs and the name is "VidSrc" or "2Embed" |
| Scraper.OriginalServers | app.py:99 | the servers "VidSrc" and "2Embed" are labelled Original |
| Scraper.SourceApiUrl | app.py:82 | definition: `https://vidsrc.pro/rcp/` followed by the tab's hash |
| Scraper.TabRequests | app.py:78-86 | definition: the one source API request of app.py:86 for a tab with a non-empty hash, none otherwise |
| Scraper.TabStepOf | app.py:75-101 | a tab without a non-empty hash is skipped; otherwise the tab raises exactly when the source API is unreachable or answers 200 with an unreadable body; a non-200 answer, or a 200 answer with an absent, null or empty url, is skipped; a 200 answer with a non-empty url emits a link whose url is that url joined to `https:` and which carries the stripped tab text and its label; a tab that is not skipped made exactly one source API request |
| Scraper.HarvestTabs | app.py:74-101 | definition of the loop over the tabs: a skipped tab adds its requests only, an emitting tab adds its link in front of the rest, and a raising tab adds its request and ends the loop with the links gathered before it |
| Scraper.Scrape | app.py:50-106 | definition of the whole scraper: no request for an unknown media type; only the embed page request when it fails or does not answer 200; otherwise the embed page request followed by the requests and links of `HarvestTabs` |
| Scraper.ScrapeVidsrcPro | app.py:50-106 | the loop with `continue` and early return yields the links and requests of `Scrape`; an unknown media type gives no link and no request |
| Scraper.HarvestBounds | app.py:74-101 | each tab yields at most one link and at most one request |
| Scraper.HarvestFromTabs | app.py:74-101 | every collected link is the one some tab emits |
| Scraper.HarvestAppend | app.py:74-101 | when no tab raises, links and requests follow tab order |
| Scraper.HarvestStopsAtAbort | app.py:56-106 | after an exception, the links gathered before it are returned and no later tab is requested |
| Scraper.HarvestWithoutHashes | app.py:78 | tabs without a usable hash make no request and yield nothing |
| Scraper.ScrapeNeedsPage | app.py:58-68 | requests happen exactly for known media types, the first is the embed page, and links need a 200 embed page |
| Scraper.ScrapedLinkFromTab | app.py:74-101 | every link comes from a tab of the embed page with a non-empty hash and a 200 source answer with a non-empty url; its url is that url joined to `https:`, and it carries that tab's stripped text and label |
| LinkDedup.Put | app.py:152 | `d[k] = v` keeps the dictionary well formed; a new key goes last, an existing key keeps its place |
| LinkDedup.FromLinks | app.py:152 | the comprehension has an entry for exactly the addresses that occur, each entry is a link whose address is its key, and there are no more keys than links |
| LinkDedup.FirstIndex | app.py:152 | the first position of an address, or the length when it does not occur |
| LinkDedup.LastIndex | app.py:152 | the last position of an address that occurs |
| LinkDedup.Values | app.py:153 | `list(d.values())`: one value per key, in key order |
| LinkDedup.Dedup | app.py:152-153 | the result is no longer than the input and empty exactly when the input is |
| LinkDedup.FromLinksOrder | app.py:152 | the keys come in the order of the first occurrence of each address |
| LinkDedup.FromLinksEntries | app.py:152 | each entry is the last link with its address |
| LinkDedup.DedupContents | app.py:152-153 | the addresses in the result are distinct, they are the addresses of the input, and each entry is the last input link with its address |
| LinkDedup.DedupKeys | app.py:152-153 | the addresses of the result are the keys of the dictionary, in key order |
| LinkDedup.DedupOrder | app.py:152-153 | the result follows the first occurrence of each address |
| LinkDedup.FromDistinctLinks | app.py:152 | without repeated addresses the keys are the addresses of the links, in order |
| LinkDedup.DedupDistinct | app.py:152-153 | links with distinct addresses come back unchanged |
| LinkDedup.DedupIdempotent | app.py:152-153 | removing duplicates twice is removing them once |
| LinkDedup.MovieDetails | app.py:143-153 | "no streaming links" exactly when the movie scraper found none; otherwise the links are `Dedup` of the scraped links: non-empty, with distinct addresses, and with exactly the addresses that were scraped |
| LinkDedup.MovieNeedsPage | app.py:147-153 | links for a movie exist only when its embed page answered with status 200 |
| Json.Get | app.py:90 | definition of `obj.get(key)`: a present member gives its value, an absent or null one None; used at app.py:90, 133-139 and 166 |
| Json.GetOr | app.py:206 | definition of `obj.get(key, default)`: an absent member gives the default, a null one None, a present one its value; used at app.py:138, 164 and 206 |
| Catalog.KnownKind | app.py:133 | definition of `media_type in ["movie", "tv"]`: present and equal to one of the two |
| Catalog.TitleOf | app.py:137 | the title when it is present and non-empty, otherwise `name` |
| Catalog.YearOf | app.py:138 | the first at most four characters of the release date, or of the first air date when the release date is absent, null or empty; a null first air date raises |
| Catalog.ProjectItem | app.py:132-140 | an item is dropped exactly when its type is not movie or tv, fails exactly when its year raises, and is otherwise projected member by member |
| Catalog.Prepend | app.py:134 | appending to a result that did not fail puts the new entries in front of the rest |
| Catalog.SearchResults | app.py:130-141 | no more entries than items, all of kind movie or tv |
| Catalog.Search | app.py:130-141 | the loop with `append` and its raising items computes `SearchResults` |
| Catalog.SearchFailsIff | app.py:130-141 | the answer fails exactly when some movie or show has no year |
| Catalog.SearchAppend | app.py:131-140 | the entries of a concatenation are those of its parts, in order |
| Catalog.SearchOne | app.py:132-140 | a single item gives its entry, nothing, or a failure |
| Catalog.SearchMembers | app.py:131-140 | the entries are exactly those of the kept items |
| Catalog.SearchRoute | app.py:127-141 | "could not find" exactly when there is no data or no non-empty results list |
| Catalog.SeasonList | app.py:164-168 | every kept season has a positive number, and there are no more entries than seasons |
| Catalog.Summary | app.py:166 | definition of the season dict: the season number, and the name and episode count through `get` |
| Catalog.SeasonListFailsIff | app.py:165-168 | the list fails exactly when some season number is null |
| Catalog.SeasonListMembers | app.py:165-168 | the entries are exactly the summaries of the seasons with a positive number; a missing number counts as 0 |
| Catalog.SeasonListAppend | app.py:165-168 | seasons are kept in order |
| Catalog.TvRoute | app.py:158-169 | "not found" exactly when there are no details; a failure exactly when the seasons are null or their list fails; otherwise the name and the season list, which is empty when the seasons are absent |
| Episodes.SubTrailingE | app.py:200 | definition of `re.sub(r'e(\d+)$', f'e{ep_num}', url)`: when the address ends in `e` and at least one digit, that tail becomes `e` and `rep`; otherwise the address is unchanged |
| Episodes.SubTrailingEpisode | app.py:201 | definition of `re.sub(r'episode=(\d+)$', f'episode={ep_num}', url)`: the same for a tail `episode=` and at least one digit |
| Episodes.RewriteUrl | app.py:200-201 | definition: the first substitution and then the second, both with the decimal form of the episode number |
| Episodes.RewriteE | app.py:200-201 | an address ending in `e` and digits ends in `e` and the episode number afterwards |
| Episodes.RewriteEpisode | app.py:200-201 | an address ending in `episode=` and digits ends in `episode=` and the episode number afterwards |
| Episodes.SubENoMatch | app.py:200 | the first substitution changes only an address with a match of `e(\d+)$` |
| Episodes.SubEpisodeNoMatch | app.py:201 | the second substitution changes only an address with a match of `episode=(\d+)$` |
| Episodes.RewriteOther | app.py:200-201 | an address that matches neither pattern is unchanged |
| Episodes.RewriteTwice | app.py:200-201 | rewriting for a non-negative episode and then for another is rewriting for the second |
| Episodes.RewriteDistinct | app.py:200 | different episodes give different addresses from an address ending in `e` and digits |
| Episodes.EpisodeTitle | app.py:206 | an absent name becomes "Episode <number>", a null one stays null |
| Episodes.BuildEpisodeLinks | app.py:191-208 | one entry per episode, in order; each holds a copy of every scraped link, in order, where only the address is rewritten for that episode |
| Episodes.GetEpisodes | app.py:172-210 | a missing argument is a bad request; an empty or absent episode list is "not found"; otherwise the episode entries are built from the links scraped for episode 1 of the season |

## Left out

- Flask routing, `jsonify` and the HTTP status codes are not modelled. The route answers are
  result datatypes with a "not found", "bad request" or "failed" case.
- The `search` route's checks of the `query` argument and of the TMDB key are not modelled,
  nor is the quoting of the base query into the TMDB address.
- HTTP requests are not modelled.
  - The embed page, the source API and the TMDB data are inputs. The embed page and the
    source API are functions of the requested address, so the model assumes the same address
    always gets the same answer.
  - The source API request also sends a `Referer` header holding the embed page address
    (app.py:83-84). `api` stands for the answers given under the Referer of the one embed
    page of a scrape; the header itself and its effect on the answers are not modelled.
  - `get_tmdb_data` and its `lru_cache` are left out.
- HTML parsing with BeautifulSoup is not modelled: the server tabs are given as a sequence of
  (text, optional hash).
- `urljoin("https:", ·)` is an uninterpreted function parameter.
- The JSON decoding of the source API answer and its `.get('result', {}).get('url')` are
  summed up as "an address, none, or a raise". A JSON member of another type than the model
  gives it (a number where a string is expected) is not modelled.
- `Text.Lower` maps only A-Z, the Kelvin sign and the dotted capital I; every other character
  is kept. This is exact for the substring and membership tests against the ASCII keywords,
  but not for `lower()` in general.
- `\d` on Unicode decimal digits other than ASCII, `$` matching before a trailing newline, and
  an episode without an `episode_number` are not modelled.
- Catalog.SearchRoute, Catalog.TvRoute: an empty JSON object is falsy in the source, so it
  also gives "not found". In the model it falls under the `None` input.
- Printing of errors, configuration from the environment, CORS and server startup are left
  out.
