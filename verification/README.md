# Verified model of the Dramacool and Kissasian scrapers

This project models, in Dafny, the deterministic string rules of three
CloudStream scraper providers for Asian dramas:

- the Dramacool provider (`DramacoolProvider.kt`);
- the Kissasian helpers (`KissasianUtils` in `demonstratorz/KissAsianProvider.kt`);
- the second Kissasian provider (`hexated/KissAsianProvider.kt`).

The rules decide every URL and label the scrapers produce:

- how relative links are made absolute (`fixUrl`, in two variants);
- how a listing link is classified as a movie, a show or a drama, and whether
  it points at a single episode that must be traced back to its show
  (`getLinkInfo`);
- how episode numbers are read from titles: one regex in the Dramacool
  provider, one `substringAfter`/`substringBefore` chain in the hexated one;
- how show titles and descriptions are cleaned;
- how page URLs are built, and how the episode list of a show page is built
  and reversed;
- which embed URLs reach the host application's extractors: the server-tab
  and default-iframe choice of Dramacool's `loadLinks`, the branch choice of
  `extractVideos`, and the three-pass scan of `extractFromIframe` with its
  blacklist of embed hosts.

Files:

- `wrappers.dfy`: the Option type, for Kotlin's nullable values.
- `text.dfy`: the Kotlin string functions the rules use, and the regex
  character classes.
- `numbers.dfy`: 32-bit `Int` parsing (`toIntOrNull`) and decimal rendering.
- `dramacool.dfy`, `kissasian_utils.dfy`, `hexated_kissasian.dfy`: one
  module per source file.

The host application stays outside the model. Its fetching, HTML selection,
JSON parsing, playlist expansion and extractors enter as plain data (the
attribute values and texts a selector returns) or as function parameters:

- the episode-page lookup `getDetailUrlFromEpisode`;
- `loadExtractor`'s verdict;
- `getHost`;
- `M3u8Helper.generateM3u8`;
- `tryParseJson`;
- the m3u8 regex's matches on a script;
- the hexated provider's inherited `fixUrl`.

What the callback and `loadExtractor` receive is returned as an ordered
sequence.

The loops that update a `var` in the source are methods with loop invariants
proved against specification functions:

- Dramacool's `loadLinks` (`sourcesLoaded`, `videoUrl`);
- `extractVideos` and `extractFromIframe` (`found`).

Everything else is functions and lemmas.

The regex replacements of `cleanTitle` are left-to-right scanners. A match
of `Episode \d+` is the eight characters `Episode ` checked one by one, then
a digit run taken greedily. A match of `[$].*?[$]` runs from a `$` to the
nearest `$` after it on the same line.

The episode list of a Dramacool show page is filtered and reversed, not
deduplicated (`DramacoolProvider.kt`, lines 326-344).

## Model

| member | source | states |
|---|---|---|
| `Text.IndexOf` | KissAsian/src/main/kotlin/com/demonstratorz/DramacoolProvider.kt:66-75 | the index found is an occurrence at or after the start, no earlier one exists, and None means none exists at all (`contains`) |
| `Text.SubstringAfter` | KissAsian/src/main/kotlin/com/hexated/KissAsianProvider.kt:116 | the result is a suffix of the input; when the delimiter occurs, the result starts right after an occurrence of it and no occurrence starts earlier; when it does not occur, the result is the whole input |
| `Text.SubstringAfterFirst` | KissAsian/src/main/kotlin/com/hexated/KissAsianProvider.kt:116 | when the first occurrence of the delimiter starts at i, the result is the text after that occurrence |
| `Text.SubstringBefore` | KissAsian/src/main/kotlin/com/hexated/KissAsianProvider.kt:116 | the result is the prefix before the first occurrence of the delimiter (no earlier occurrence), or the whole input when there is none |
| `Text.SubstringBeforeChar` | KissAsian/src/main/kotlin/com/hexated/KissAsianProvider.kt:116 | before a one-character delimiter the result holds no such character and stops at its first occurrence or at the end |
| `Text.RemoveSuffix` | KissAsian/src/main/kotlin/com/demonstratorz/DramacoolProvider.kt:151 | with the suffix present, the result followed by the suffix is the input; otherwise the input is unchanged |
| `Text.ContainsIgnoreCaseIff` | KissAsian/src/main/kotlin/com/demonstratorz/DramacoolProvider.kt:66-69 | for a lower-case needle, `contains(ignoreCase = true)` holds exactly when the needle occurs at some position up to ASCII case |
| `Text.Trim` | KissAsian/src/main/kotlin/com/demonstratorz/DramacoolProvider.kt:448 | the result has no whitespace at either end and is a middle part of the input with only whitespace cut away on either side |
| `Text.TrimIdempotent` | KissAsian/src/main/kotlin/com/demonstratorz/DramacoolProvider.kt:448 | trimming twice equals trimming once |
| `Text.TrimEmptyIffBlank` | KissAsian/src/main/kotlin/com/demonstratorz/DramacoolProvider.kt:60 | a string trims to empty exactly when it is blank, so `isBlank` and an empty `trim` agree |
| `Text.TrimDropsTrailingSpace` | KissAsian/src/main/kotlin/com/demonstratorz/KissAsianProvider.kt:70 | a trailing whitespace character does not change the result of `trim()` |
| `Numbers.ToIntOrNull` | KissAsian/src/main/kotlin/com/hexated/KissAsianProvider.kt:116 | a result lies in the Int range and comes from an optional `+` or `-` followed by digits; for such a string the value is the digits read in decimal (negated after `-`), and null exactly when that value leaves the Int range |
| `Numbers.DigitsOverflowIsNull` | KissAsian/src/main/kotlin/com/demonstratorz/DramacoolProvider.kt:49 | a digit string whose value exceeds Int.MAX_VALUE parses to null rather than a wrapped value |
| `Numbers.IntToStringRoundTrip` | KissAsian/src/main/kotlin/com/hexated/KissAsianProvider.kt:116 | every Int written in decimal reads back as itself |
| `Numbers.NatToStringValue` | KissAsian/src/main/kotlin/com/demonstratorz/DramacoolProvider.kt:151 | the decimal rendering of a page number reads back as that number |
| `Dramacool.CurrentDomain` | KissAsian/src/main/kotlin/com/demonstratorz/DramacoolProvider.kt:442 | the domain is a prefix of `mainUrl` that stops at a `/` and keeps an `http` scheme; for `https://host...` it is exactly scheme and host |
| `Dramacool.CurrentDomainHttpOrWhole` | KissAsian/src/main/kotlin/com/demonstratorz/DramacoolProvider.kt:442 | for `http://host...` the domain is exactly scheme and host; when the regex does not match, the `?: mainUrl` fallback gives `mainUrl` itself |
| `Dramacool.HostEnd` | KissAsian/src/main/kotlin/com/demonstratorz/DramacoolProvider.kt:442 | the host part `[^/]+` of the domain regex stops at the first `/` or at the end, with no `/` before it |
| `Dramacool.FixUrlNull` | KissAsian/src/main/kotlin/com/demonstratorz/DramacoolProvider.kt:435-437 | absent stays absent, present is resolved, and with an `http` origin the result is absolute |
| `Dramacool.ResolveAgainst` | KissAsian/src/main/kotlin/com/demonstratorz/DramacoolProvider.kt:442-447 | the link always ends the resolved form, an `http` link is kept as it is, and against an `http` origin the result is absolute |
| `Dramacool.FixUrl` | KissAsian/src/main/kotlin/com/demonstratorz/DramacoolProvider.kt:440-449 | with an `http` origin every resolved link starts with `http`, whatever the input |
| `Dramacool.FixUrlKeepsAbsolute` | KissAsian/src/main/kotlin/com/demonstratorz/DramacoolProvider.kt:443-448 | an `http` link comes back unchanged except for trimming |
| `Dramacool.FixUrlIdempotent` | KissAsian/src/main/kotlin/com/demonstratorz/DramacoolProvider.kt:440-449 | resolving a resolved link changes nothing |
| `Dramacool.FixUrlResolvesRelative` | KissAsian/src/main/kotlin/com/demonstratorz/DramacoolProvider.kt:442-448 | for a trimmed link: `//x` becomes `https://x`, `/p` gets scheme and host of `mainUrl`, a bare path gets them plus `/`, an `http` link is kept |
| `Dramacool.MainUrlIsOrigin` | KissAsian/src/main/kotlin/com/demonstratorz/DramacoolProvider.kt:19 | the configured origin is already bare scheme and host, so it is its own domain |
| `Dramacool.ClassifyLink` | KissAsian/src/main/kotlin/com/demonstratorz/DramacoolProvider.kt:65-72 | each kind is characterised in both directions by the ordered rules: movie URL first, then kshow marks, then detail or episode-shaped URLs, then a movie label, else drama |
| `Dramacool.GetLinkInfo` | KissAsian/src/main/kotlin/com/demonstratorz/DramacoolProvider.kt:57-79 | null exactly for a missing or blank link; otherwise the chosen link with the classifier's kind, and the direct-episode flag holds exactly for a non-detail, non-movie link ending in `.html` or containing `-episode-` |
| `Dramacool.DirectLinkIsEpisodeOfShow` | KissAsian/src/main/kotlin/com/demonstratorz/DramacoolProvider.kt:74-76 | a direct episode link is a drama or a show and never a detail page |
| `Dramacool.EpMatchAt` | KissAsian/src/main/kotlin/com/demonstratorz/DramacoolProvider.kt:48 | a match at a position always points at a digit after the `ep` prefix |
| `Dramacool.FindEp` | KissAsian/src/main/kotlin/com/demonstratorz/DramacoolProvider.kt:48-49 | the regex match found is the leftmost one, and None means no position matches |
| `Dramacool.ExtractEpisodeNumber` | KissAsian/src/main/kotlin/com/demonstratorz/DramacoolProvider.kt:46-51 | null for null text or no match; otherwise the first match's digit run, null exactly when it overflows an Int, and never negative |
| `Dramacool.EpisodeNumberOfLabel` | KissAsian/src/main/kotlin/com/demonstratorz/DramacoolProvider.kt:46-51 | a title `Episode <n>` followed by a non-digit reads back as n |
| `Dramacool.StripTrailingLabel` | KissAsian/src/main/kotlin/com/demonstratorz/DramacoolProvider.kt:165-166 | the result is a prefix of the title; when shorter, the regex matches at the cut and at no earlier position |
| `Dramacool.StripNeedsTrailingDigit` | KissAsian/src/main/kotlin/com/demonstratorz/DramacoolProvider.kt:165-166 | a title not ending in a digit is never cut |
| `Dramacool.EpisodeItemTitle` | KissAsian/src/main/kotlin/com/demonstratorz/DramacoolProvider.kt:164-167 | `Unknown Show` without a title; otherwise a trimmed string |
| `Dramacool.EpisodeItemTitleIsPrefix` | KissAsian/src/main/kotlin/com/demonstratorz/DramacoolProvider.kt:164-167 | the show title is a trimmed prefix of the item title: the cleanup only cuts a suffix |
| `Dramacool.PageUrl` | KissAsian/src/main/kotlin/com/demonstratorz/DramacoolProvider.kt:151 | page 1 or below is the category URL itself; a later page is the category URL with one trailing `/` removed, followed by `/page/<n>/` |
| `Dramacool.PageUrlCarriesPage` | KissAsian/src/main/kotlin/com/demonstratorz/DramacoolProvider.kt:151 | the page number can be read back from the digits before the final slash |
| `Dramacool.ListingItem` | KissAsian/src/main/kotlin/com/demonstratorz/DramacoolProvider.kt:158-186 | an item without link info is dropped; a non-episode item keeps its resolved link and is titled by its trimmed `h3.title`, or `Unknown` without one; an episode item is kept exactly when its show URL is found and gets the cleaned title; the kind is the classifier's; the poster is the resolved `data-original`, else the resolved `src`; URLs are absolute for an `http` origin |
| `Dramacool.ListingEntries` | KissAsian/src/main/kotlin/com/demonstratorz/DramacoolProvider.kt:156-191 | at most one entry per element, all absolute for an `http` origin |
| `Dramacool.ListingEntriesCons` | KissAsian/src/main/kotlin/com/demonstratorz/DramacoolProvider.kt:156-191 | the entries of a page are the first element's item, when it maps, followed by the entries of the rest, in page order |
| `Dramacool.FilterMap` | KissAsian/src/main/kotlin/com/demonstratorz/DramacoolProvider.kt:156-191 | `mapNotNull` never yields more results than elements |
| `Dramacool.FilterMapConcat` | KissAsian/src/main/kotlin/com/demonstratorz/DramacoolProvider.kt:326-343 | `mapNotNull` over two lists joined is the two results joined, in order |
| `Dramacool.FilterMapAll` | KissAsian/src/main/kotlin/com/demonstratorz/DramacoolProvider.kt:326-343 | what holds of every non-null value of the mapping holds of every element `mapNotNull` keeps |
| `Dramacool.Recommendation` | KissAsian/src/main/kotlin/com/demonstratorz/DramacoolProvider.kt:296-306 | kept exactly for a linked, non-episode element with an `h3.title`; it then carries the resolved link, the trimmed title, the classifier's kind and the resolved `data-original` (else `src`) as poster, with an absolute URL for an `http` origin |
| `Dramacool.AllRecommendations` | KissAsian/src/main/kotlin/com/demonstratorz/DramacoolProvider.kt:296-308 | at most one recommendation per element |
| `Dramacool.AllRecommendationsCons` | KissAsian/src/main/kotlin/com/demonstratorz/DramacoolProvider.kt:296-308 | the recommendations are the first element's, when kept, followed by those of the rest, in page order |
| `Dramacool.Recommendations` | KissAsian/src/main/kotlin/com/demonstratorz/DramacoolProvider.kt:296-308 | the first at most fifteen recommendations, all of them when fewer, all absolute for an `http` origin |
| `Dramacool.LoadDetailUrl` | KissAsian/src/main/kotlin/com/demonstratorz/DramacoolProvider.kt:252-263 | a detail URL is resolved directly; any other URL is recovered through the episode page, and `load` gives up exactly when that fails; the result is absolute for an `http` origin |
| `Dramacool.ShowType` | KissAsian/src/main/kotlin/com/demonstratorz/DramacoolProvider.kt:312-323 | a page without episodes is a movie; otherwise the classifier's kind of the detail URL, or `AsianDrama` when that URL is blank |
| `Dramacool.ShowTypeFallbackUnused` | KissAsian/src/main/kotlin/com/demonstratorz/DramacoolProvider.kt:323 | for an absolute detail URL the classifier always answers, so the AsianDrama fallback is never taken |
| `Dramacool.MakeEpisode` | KissAsian/src/main/kotlin/com/demonstratorz/DramacoolProvider.kt:326-339 | an episode exists exactly for a non-blank link; its data is the resolved link and its number is read from the trimmed title |
| `Dramacool.EpisodeNameIsTitleOrUnknown` | KissAsian/src/main/kotlin/com/demonstratorz/DramacoolProvider.kt:332-337 | the name is the trimmed title; without a title it is always `Episode ?`, since the number is then null |
| `Dramacool.KeptEpisodes` | KissAsian/src/main/kotlin/com/demonstratorz/DramacoolProvider.kt:326-343 | at most one episode per element, each with an absolute link for an `http` origin |
| `Dramacool.KeptEpisodesCons` | KissAsian/src/main/kotlin/com/demonstratorz/DramacoolProvider.kt:326-343 | the kept episodes are the first element's episode, when it maps, followed by those of the rest, in page order |
| `Dramacool.Reverse` | KissAsian/src/main/kotlin/com/demonstratorz/DramacoolProvider.kt:344 | `reversed()` keeps the length, and element k comes from the mirrored position |
| `Dramacool.EpisodeList` | KissAsian/src/main/kotlin/com/demonstratorz/DramacoolProvider.kt:326-344 | the episode list holds exactly the kept episodes in the opposite order of the page, each with an absolute link for an `http` origin |
| `Dramacool.ServerCalls` | KissAsian/src/main/kotlin/com/demonstratorz/DramacoolProvider.kt:386-401 | at most one call per server tab, each with the watch page as referer and an absolute embed URL for an `http` origin |
| `Dramacool.ServerCallsStep` | KissAsian/src/main/kotlin/com/demonstratorz/DramacoolProvider.kt:386-401 | one more server tab adds its call exactly when its `data-video` is not blank; the call's URL is `ServerEmbedUrl` (lines 396-397): the `data-video` itself when it starts with `http`, its `fixUrl` otherwise |
| `Dramacool.AnyAcceptedAppend` | KissAsian/src/main/kotlin/com/demonstratorz/DramacoolProvider.kt:408 | `AnyAccepted` (`results.any { it }`) over one more result is the previous answer or the new result |
| `Dramacool.IframeCalls` | KissAsian/src/main/kotlin/com/demonstratorz/DramacoolProvider.kt:411-419 | one call exactly when the default iframe has a non-blank `src`, with the resolved `src` and the watch page as referer |
| `Dramacool.LoadServers` | KissAsian/src/main/kotlin/com/demonstratorz/DramacoolProvider.kt:383-408 | the calls are exactly those for the non-blank tabs in order, and the result is true exactly when some extractor accepted |
| `Dramacool.LoadLinks` | KissAsian/src/main/kotlin/com/demonstratorz/DramacoolProvider.kt:364-432 | a detail URL is refused before any fetch; otherwise the fixed URL is fetched, the calls are those of the server tabs or else the default iframe, and the result is true exactly when some extractor accepted |
| `Dramacool.LinkCalls` | KissAsian/src/main/kotlin/com/demonstratorz/DramacoolProvider.kt:370-421 | no call for a detail URL or a page that could not be fetched; every call carries the resolved watch-page URL as referer, and every embed URL is absolute for an `http` origin |
| `Dramacool.DetailPageRefused` | KissAsian/src/main/kotlin/com/demonstratorz/DramacoolProvider.kt:371-374 | a URL containing `/drama-detail/` (any case) leads to no call and a false result |
| `KissasianUtils.GetVideoType` | KissAsian/src/main/kotlin/com/demonstratorz/KissAsianProvider.kt:41-47 | `hls` exactly when the URL contains `.m3u8` (even with `.mp4`), `mp4` exactly for `.mp4` without `.m3u8`, otherwise `iframe` |
| `KissasianUtils.FixUrl` | KissAsian/src/main/kotlin/com/demonstratorz/KissAsianProvider.kt:57-65 | empty in, empty out; any other input gives an `http` URL that ends with the input |
| `KissasianUtils.FixUrlForms` | KissAsian/src/main/kotlin/com/demonstratorz/KissAsianProvider.kt:57-65 | `//x` gets `https:`, `/p` gets `https://kissasian.com.lv`, another non-`http` string gets `https://`, an `http` string is kept |
| `KissasianUtils.FixUrlIdempotent` | KissAsian/src/main/kotlin/com/demonstratorz/KissAsianProvider.kt:57-65 | fixing a fixed URL changes nothing |
| `KissasianUtils.RemoveEpisodeTokens` | KissAsian/src/main/kotlin/com/demonstratorz/KissAsianProvider.kt:68 | the result is never longer than the text scanned |
| `KissasianUtils.DollarScan` | KissAsian/src/main/kotlin/com/demonstratorz/KissAsianProvider.kt:69 | the lazy `.*?` of the span regex stops at an index between the start and the end of the text |
| `KissasianUtils.DollarScanStops` | KissAsian/src/main/kotlin/com/demonstratorz/KissAsianProvider.kt:69 | the scan passes over no `$` and no line terminator, and stops at one of them or at the end |
| `KissasianUtils.RemoveEpisodeTokensNone` | KissAsian/src/main/kotlin/com/demonstratorz/KissAsianProvider.kt:68 | text without `Episode <digits>` is left as it is |
| `KissasianUtils.RemoveEpisodeTokensShrinks` | KissAsian/src/main/kotlin/com/demonstratorz/KissAsianProvider.kt:68 | text holding `Episode <digits>` at or after the start always loses characters |
| `KissasianUtils.RemoveEpisodeTokensFirstLabel` | KissAsian/src/main/kotlin/com/demonstratorz/KissAsianProvider.kt:68 | the text before the first label is kept, and the scan resumes right after the label's whole digit run |
| `KissasianUtils.RemoveEpisodeTokensCut` | KissAsian/src/main/kotlin/com/demonstratorz/KissAsianProvider.kt:68 | a label `Episode <digits>` after label-free text is cut out with its whole digit run, and the text after it is cleaned on its own |
| `KissasianUtils.RemoveDollarSpans` | KissAsian/src/main/kotlin/com/demonstratorz/KissAsianProvider.kt:69 | the result is never longer than the text scanned |
| `KissasianUtils.RemoveDollarSpansNone` | KissAsian/src/main/kotlin/com/demonstratorz/KissAsianProvider.kt:69 | text without `$` is left as it is |
| `KissasianUtils.RemoveDollarSpansFirstSpan` | KissAsian/src/main/kotlin/com/demonstratorz/KissAsianProvider.kt:69 | the text before the first span is kept, and the scan resumes just past the span's closing `$` |
| `KissasianUtils.RemoveDollarSpansCut` | KissAsian/src/main/kotlin/com/demonstratorz/KissAsianProvider.kt:69 | a span `$…$` on one line after `$`-free text is cut out up to the nearest closing `$`, and the text after it is cleaned on its own |
| `KissasianUtils.RemoveDollarSpansLeavesOneDollar` | KissAsian/src/main/kotlin/com/demonstratorz/KissAsianProvider.kt:69 | on a single line at most one `$` survives, since any two pair up into a removed span |
| `KissasianUtils.CleanTitle` | KissAsian/src/main/kotlin/com/demonstratorz/KissAsianProvider.kt:67-71 | the result is trimmed and never longer than the title |
| `KissasianUtils.CleanTitlePlain` | KissAsian/src/main/kotlin/com/demonstratorz/KissAsianProvider.kt:67-71 | a title without episode labels and without `$` is only trimmed |
| `KissasianUtils.CleanTitleDropsLabel` | KissAsian/src/main/kotlin/com/demonstratorz/KissAsianProvider.kt:67-71 | a title containing an episode label always loses characters |
| `KissasianUtils.CleanTitleDropsEpisodeSuffix` | KissAsian/src/main/kotlin/com/demonstratorz/KissAsianProvider.kt:67-71 | a title without labels and without `$`, followed by ` Episode <n>`, cleans to the trimmed title |
| `KissasianUtils.VideoEmissions` | KissAsian/src/main/kotlin/com/demonstratorz/KissAsianProvider.kt:82-110 | a playlist URL yields the generated links in order, a supported host one hand-over to `loadExtractor`, any other URL one direct link |
| `KissasianUtils.ExtractVideos` | KissAsian/src/main/kotlin/com/demonstratorz/KissAsianProvider.kt:73-112 | emits exactly the branch's emissions; for a playlist the result is true exactly when links were generated, otherwise always true; true exactly when something was emitted |
| `KissasianUtils.PlaylistBranchIsHls` | KissAsian/src/main/kotlin/com/demonstratorz/KissAsianProvider.kt:82-92 | the playlist branch is taken exactly for the URLs `getVideoType` calls `hls` |
| `KissasianUtils.DirectLinkKeepsUrl` | KissAsian/src/main/kotlin/com/demonstratorz/KissAsianProvider.kt:93-109 | a non-playlist URL yields one emission carrying that URL and referer, with quality Unknown when it is a direct link |
| `KissasianUtils.TrimQuotes` | KissAsian/src/main/kotlin/com/demonstratorz/KissAsianProvider.kt:136 | the result has no quote at either end and is never longer |
| `KissasianUtils.TrimQuotesSlice` | KissAsian/src/main/kotlin/com/demonstratorz/KissAsianProvider.kt:136 | what `trim('"', '\'')` keeps of a slice is a middle part of it with only quotes on either side |
| `KissasianUtils.TrimQuotesMiddle` | KissAsian/src/main/kotlin/com/demonstratorz/KissAsianProvider.kt:136 | what `trim('"', '\'')` keeps is the middle part of the text, with only quotes cut away on either side |
| `KissasianUtils.VideoPass` | KissAsian/src/main/kotlin/com/demonstratorz/KissAsianProvider.kt:123-129 | every video-source candidate is non-empty, absolute and not blacklisted |
| `KissasianUtils.VideoPassStep` | KissAsian/src/main/kotlin/com/demonstratorz/KissAsianProvider.kt:123-129 | one more `src` appends its fixed URL exactly when that URL is non-empty and not blacklisted, after the earlier ones |
| `KissasianUtils.VideoPassKeeps` | KissAsian/src/main/kotlin/com/demonstratorz/KissAsianProvider.kt:123-129 | every `src` whose fixed URL is non-empty and not blacklisted is a candidate |
| `KissasianUtils.MatchPass` | KissAsian/src/main/kotlin/com/demonstratorz/KissAsianProvider.kt:135-141 | no m3u8 candidate of a script is blacklisted |
| `KissasianUtils.MatchPassStep` | KissAsian/src/main/kotlin/com/demonstratorz/KissAsianProvider.kt:135-141 | one more match appends its unquoted, fixed URL exactly when that URL is not blacklisted, after the earlier ones |
| `KissasianUtils.MatchPassKeeps` | KissAsian/src/main/kotlin/com/demonstratorz/KissAsianProvider.kt:135-141 | every match whose unquoted, fixed URL is not blacklisted is a candidate |
| `KissasianUtils.ScriptPass` | KissAsian/src/main/kotlin/com/demonstratorz/KissAsianProvider.kt:132-142 | no m3u8 candidate of any script is blacklisted |
| `KissasianUtils.ScriptPassStep` | KissAsian/src/main/kotlin/com/demonstratorz/KissAsianProvider.kt:132-142 | one more script appends the candidates of its own matches after those of the earlier scripts |
| `KissasianUtils.ScriptPassKeeps` | KissAsian/src/main/kotlin/com/demonstratorz/KissAsianProvider.kt:132-142 | every non-blacklisted match of every script is a candidate |
| `KissasianUtils.SourcesJson` | KissAsian/src/main/kotlin/com/demonstratorz/KissAsianProvider.kt:149 | the JSON text always ends in `]`, and is the whole script plus `]` when neither marker occurs |
| `KissasianUtils.SourcesJsonOfAssignment` | KissAsian/src/main/kotlin/com/demonstratorz/KissAsianProvider.kt:149 | for `sources = <list>];` the JSON text is the list closed by `]` |
| `KissasianUtils.SourcesAssignment` | KissAsian/src/main/kotlin/com/demonstratorz/KissAsianProvider.kt:146-149 | a script `sources = <json>];` with no `]` inside the list mentions `sources`, and its JSON text is the list closed by `]` |
| `KissasianUtils.FilePass` | KissAsian/src/main/kotlin/com/demonstratorz/KissAsianProvider.kt:150-153 | one candidate per parsed source, its fixed `file`, with no blacklist check |
| `KissasianUtils.FilePassStep` | KissAsian/src/main/kotlin/com/demonstratorz/KissAsianProvider.kt:150-153 | one more parsed source appends its fixed `file` |
| `KissasianUtils.JsonFiles` | KissAsian/src/main/kotlin/com/demonstratorz/KissAsianProvider.kt:146-153 | nothing unless the script mentions `sources` and its JSON parses; otherwise one fixed `file` per parsed source in order, each empty or absolute |
| `KissasianUtils.JsonPass` | KissAsian/src/main/kotlin/com/demonstratorz/KissAsianProvider.kt:145-155 | no scripts, no candidates |
| `KissasianUtils.JsonPassStep` | KissAsian/src/main/kotlin/com/demonstratorz/KissAsianProvider.kt:145-155 | one more script appends that script's JSON files, in document order |
| `KissasianUtils.MatchPassAbsolute` | KissAsian/src/main/kotlin/com/demonstratorz/KissAsianProvider.kt:135-141 | every m3u8 candidate of a script is empty or absolute |
| `KissasianUtils.ScriptPassAbsolute` | KissAsian/src/main/kotlin/com/demonstratorz/KissAsianProvider.kt:132-142 | every m3u8 candidate of every script is empty or absolute |
| `KissasianUtils.JsonPassAbsolute` | KissAsian/src/main/kotlin/com/demonstratorz/KissAsianProvider.kt:145-155 | every JSON candidate is empty or absolute |
| `KissasianUtils.IframeCandidates` | KissAsian/src/main/kotlin/com/demonstratorz/KissAsianProvider.kt:114-158 | every URL handed to `extractVideos` is empty or absolute, the video-source candidates come first, none of them empty, and the JSON-file candidates come last |
| `KissasianUtils.VideoSourcePass` | KissAsian/src/main/kotlin/com/demonstratorz/KissAsianProvider.kt:123-129 | hands on exactly the pass-1 candidates in order, emits their `extractVideos` output, and reports found exactly when one was handed on |
| `KissasianUtils.MatchesPass` | KissAsian/src/main/kotlin/com/demonstratorz/KissAsianProvider.kt:135-141 | the same for the m3u8 matches of one script |
| `KissasianUtils.ScriptsM3u8Pass` | KissAsian/src/main/kotlin/com/demonstratorz/KissAsianProvider.kt:132-142 | the same for the m3u8 matches of all scripts in order |
| `KissasianUtils.FilesPass` | KissAsian/src/main/kotlin/com/demonstratorz/KissAsianProvider.kt:150-153 | the same for the sources parsed from one script; found exactly when the list is non-empty |
| `KissasianUtils.ScriptsJsonPass` | KissAsian/src/main/kotlin/com/demonstratorz/KissAsianProvider.kt:145-155 | the same for the JSON sources of all scripts in order |
| `KissasianUtils.ExtractFromIframe` | KissAsian/src/main/kotlin/com/demonstratorz/KissAsianProvider.kt:114-158 | the three passes run in order with no short-circuit, the emissions are those of every candidate in turn, and the result is true exactly when some candidate was handed on |
| `KissasianUtils.EmissionsOfConcat` | KissAsian/src/main/kotlin/com/demonstratorz/KissAsianProvider.kt:114-158 | the emissions of consecutive passes are the concatenation of each pass's emissions |
| `KissasianUtils.EmissionsOfSnoc` | KissAsian/src/main/kotlin/com/demonstratorz/KissAsianProvider.kt:114-158 | one more candidate appends its `extractVideos` emissions |
| `KissasianUtils.FirstPassesSkipBlacklist` | KissAsian/src/main/kotlin/com/demonstratorz/KissAsianProvider.kt:125-141 | no candidate from the video-source or m3u8 passes is blacklisted |
| `KissasianUtils.JsonPassIgnoresBlacklist` | KissAsian/src/main/kotlin/com/demonstratorz/KissAsianProvider.kt:145-155 | every absolute `file` parsed from a script mentioning `sources` is handed on, whatever its host |
| `KissasianUtils.BlacklistedJsonSourceHandedOn` | KissAsian/src/main/kotlin/com/demonstratorz/KissAsianProvider.kt:145-155 | an absolute blacklisted file (a dood.to embed, say) listed in a script's `sources = [...];` still reaches `extractVideos` |
| `KissasianUtils.ScriptPassWithoutMatches` | KissAsian/src/main/kotlin/com/demonstratorz/KissAsianProvider.kt:132-142 | scripts with no m3u8 match add nothing in the second pass |
| `KissasianUtils.CandidatesWithoutMatches` | KissAsian/src/main/kotlin/com/demonstratorz/KissAsianProvider.kt:114-158 | without `video source` elements and without m3u8 matches, the candidates are exactly those of the JSON pass |
| `HexatedKissasian.EpisodeToken` | KissAsian/src/main/kotlin/com/hexated/KissAsianProvider.kt:116 | the token is space-free and no longer than the title; it starts the text after the first `Episode ` (all of the text when there is none) and stops there at a space or at the end |
| `HexatedKissasian.ExtractEpisodeNumber` | KissAsian/src/main/kotlin/com/hexated/KissAsianProvider.kt:115-117 | always an Int; the token's value when it parses, 0 otherwise |
| `HexatedKissasian.EpisodeTokenOfLabel` | KissAsian/src/main/kotlin/com/hexated/KissAsianProvider.kt:116 | when no `Episode ` starts earlier, a space-free word that follows the label and is ended by nothing or a space is the token, whatever text comes before the label |
| `HexatedKissasian.WordBeforeSpace` | KissAsian/src/main/kotlin/com/hexated/KissAsianProvider.kt:116 | `substringBefore(" ")` keeps a space-free word followed by nothing or a space |
| `HexatedKissasian.AfterFirstLabel` | KissAsian/src/main/kotlin/com/hexated/KissAsianProvider.kt:116 | `substringAfter("Episode ")` of text whose first label follows p is the text after that label |
| `HexatedKissasian.EpisodeNumberRoundTrip` | KissAsian/src/main/kotlin/com/hexated/KissAsianProvider.kt:115-117 | a title whose first `Episode ` is followed by an Int n, then by nothing or a space, reads back as n, negative n included, whatever text comes before the label |
| `HexatedKissasian.EpisodeNumberOverflowIsZero` | KissAsian/src/main/kotlin/com/hexated/KissAsianProvider.kt:115-117 | a title whose first `Episode ` is followed by digits beyond the Int range reads as 0 rather than a wrapped value |
| `HexatedKissasian.EpisodeNumberWithoutLabel` | KissAsian/src/main/kotlin/com/hexated/KissAsianProvider.kt:116 | without `Episode ` the first word of the whole text is parsed |
| `HexatedKissasian.RemoveNotices` | KissAsian/src/main/kotlin/com/hexated/KissAsianProvider.kt:112 | never longer; text without the notice is left as it is |
| `HexatedKissasian.RemoveNoticesSingleLine` | KissAsian/src/main/kotlin/com/hexated/KissAsianProvider.kt:112 | on a single line the first notice removes everything after it |
| `HexatedKissasian.CleanUpDescription` | KissAsian/src/main/kotlin/com/hexated/KissAsianProvider.kt:111-113 | the result is trimmed and never longer than the text |
| `HexatedKissasian.CleanUpDescriptionSingleLine` | KissAsian/src/main/kotlin/com/hexated/KissAsianProvider.kt:111-113 | on a single line the text before the first notice, trimmed; without a notice, the trimmed text |
| `HexatedKissasian.LoadLinks` | KissAsian/src/main/kotlin/com/hexated/KissAsianProvider.kt:90-109 | false exactly for an empty iframe source; otherwise the resolved source goes to the extractor and the result is true whatever the extractor does |

## Left out

- Network I/O is not modelled: `cfKiller`, `app.get`, the CloudflareKiller retry, and the fetches inside `getDetailUrlFromEpisode`. A fetched page enters as data, and a failed fetch of the watch page as an absent page.
- Jsoup CSS selection is not modelled. The model starts from the attribute values and element texts that the selectors return.
- Jsoup's `text()` collapses whitespace, but the model keeps every input character.
- JSON-LD parsing with Jackson in `getDetailUrlFromEpisode` is left out. The whole lookup is the parameter `detailOf`/`recover`.
- `tryParseJson` is the parameter `parseSources`.
- The m3u8 regex's `findAll` in `extractFromIframe` (line 134) is not modelled. Its matches on each script are the parameter `m3u8Matches`.
- `getHost` (`java.net.URI` host parsing) is the parameter `hostOf`.
- `loadExtractor` and `M3u8Helper.generateM3u8` are host code. They are the parameters `accepts` and `generate`, and `loadExtractor` calls appear in `extractVideos` as `Delegated` emissions.
- The parallel `apmapNotNull` (listing pages and server tabs) is modelled as a sequential map in page order. Under concurrency the extractors may be called in another order; the boolean result does not depend on that order.
- `withContext(Dispatchers.IO)` is not modelled.
- `searchAnime` (URL encoding plus a fetch) and the search/home-page fetches and selectors are left out. Their per-item mapping is `Dramacool.ListingItem`.
- The hexated `getMainPage` does not compile (it refers to an undefined `dramas`). Its `search` and `load` are selectors; the rules of their own they apply are `cleanUpDescription` and `extractEpisodeNumber`, which are modelled. The `fixUrl` they call is inherited from the host (see the next line).
- The hexated provider's `fixUrl` is the host's `MainAPI.fixUrl`, which is not part of this model. It enters `HexatedKissasian.LoadLinks` as a parameter.
- The fields of `load`'s response (title, poster, plot, status, year, genres) are pure selections with no rule to model.
- Logging is left out.
- Exceptions thrown by host code are left out. An exception inside one listing item or server tab reads as a dropped item or a refusing extractor; one thrown by `generateM3u8` inside `extractFromIframe` is not modelled.
- `KissasianUtils.ExtractVideos`: the numeric value of `Qualities.Unknown` belongs to the host library, so a direct link carries the symbolic quality `Unknown`.
- `Text.ContainsIgnoreCase`: folds ASCII letters only. Kotlin's `contains(ignoreCase = true)` and `uppercase()`, and regexes compiled with `IGNORE_CASE` (which Kotlin pairs with `UNICODE_CASE`), also fold non-ASCII letters such as the long s or the Kelvin sign onto ASCII ones, and `uppercase()` can change a string's length (`ß`). Those non-ASCII inputs are not modelled.
- `Numbers.ToIntOrNull`: accepts ASCII digits only, while Kotlin's `toIntOrNull` also accepts other Unicode decimal digits.
- `Dramacool.StripTrailingLabel`: the regex `$` also matches before a final line terminator. The model anchors at the very end, which agrees for the whitespace-normalised element text the source applies it to.
