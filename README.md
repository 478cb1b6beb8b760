# Copernicus Marine toolkit: scrapers, cache and series checks

This project models the core of the Copernicus Marine toolkit. The toolkit is a set of Python
scripts that find and download Copernicus Marine tutorials, notebooks and data files. It also
holds a few utility functions for ocean time series. The model covers:

- The basic tutorial scraper (`scrape_copernicus.py`):
  - collect the tutorial links of the listing page, numbered and with folder names;
  - describe each resource of a tutorial page;
  - download with retries and exponential back-off;
  - count successes and failures per tutorial.
- `sanitize_filename`, shared by both tutorial scrapers, as a pipeline of small rewrites.
- The enhanced scraper (`scrape_copernicus_enhanced.py`):
  - the `CacheManager` class: a url-keyed index with expiry, plus the files it owns;
  - `ParallelDownloader`: `download_file` and `download_batch`;
  - the per-tutorial counts of `process_tutorial`.
- The deep scraper (`deep_scraper.py`):
  - which links are files;
  - extension and source classification;
  - `extract_file_info`;
  - the depth-limited recursive crawl over a `visited` set, with its log of requests;
  - the per-extension and per-source tallies;
  - the downloads that never overwrite an existing file.
- The multi-level scraper (`multilevel_scraper.py`):
  - the level crawl over direct downloads, download buttons, tutorial sub-pages and external platforms;
  - the rewrite of Mercator Ocean share links to download links;
  - the test entry point over fixed URLs;
  - the download loop with its 10 MiB size gate and magic-byte labels.
- The smart scraper (`smart_scraper.py`):
  - the GitHub contents walk;
  - the page scan for direct downloads;
  - merging and de-duplicating by url;
  - the download selection and its write-once loop.
- The notebook finder (`find_notebooks.py`):
  - `convert_to_raw_url`;
  - the depth-limited contents walk;
  - de-duplication by url;
  - the stable sort by size;
  - the download loop with its limit.
- The time-series utilities (`copernicus_utils.py`):
  - `subset_region`: dimension choice and the longitude shift;
  - the NaN handling of `apply_filter`;
  - the guard and the pairwise slopes of `calculate_trend`;
  - `detect_extremes` as maximal runs, filtered by duration and by separation;
  - the gap scan and the pass rule of `quality_check`.

Everything the scripts read from outside is given to the model as an input. That covers pages,
HEAD and GET answers, API listings, the file system and the clock. Each input is a map or a
function, and a request that raises is an absent key or `None`. Stateful objects are Dafny classes:

- `CacheManager`;
- `ParallelDownloader`;
- `DeepScraper`, whose `visited` set and request log are fields;
- `MultiLevelScraper`.

Each method is proved against a function specification, and the lemmas beside that function state
what the source promises.

Behaviour modelled as the code has it:

- `sanitize_filename` keeps `(`, `.` and `)`. "Tutorial: SST Analysis (v1.0)" becomes
  `Tutorial_SST_Analysis_(v1.0)`. The expectation written in tests/test_utils.py:299-301 is
  `Tutorial_SST_Analysis_v1_0`, and the code is followed.
- In `find_direct_downloads` of the smart scraper, the first branch tests `'.ipynb'` on the
  lowered href. The GitHub branch tests `'.ipynb'` on the href as written, and it can never be
  reached (`Smart.ClassifyLinkGitHubBranchUnreachable`).
- In `quality_check`, a negative `max_gap` makes `quality_pass` false for every input, because the
  longest gap is never negative.
- A cache entry is fresh while `now - date <= expire_days` days, boundary included. A rewritten
  Mercator link with no `content-disposition` is saved under the last piece of the link plus `.zip`.

Modules: `Wrappers` (Option, Result), `Text` (Python string operations on `seq<char>`),
`Collect` (dedup, tallies, slices, filters), `Crawl` (request logs), and one module per script
area: `Sanitize`, `Cache`, `Downloader`, `Tutorials`, `Deep`, `Multilevel`, `Smart`,
`Notebooks`, `Series`, `Extremes`.

## Model

| member | source | states |
|---|---|---|
| Text.AfterLast | scrape_copernicus.py:212 | `s.split(sep)[-1]`: a suffix with no separator in it, preceded by the separator whenever it is shorter than the input. |
| Text.BeforeFirst | scrape_copernicus.py:212 | `s.split(sep)[0]`: a prefix with no separator in it, followed by the separator whenever it is shorter than the input. |
| Text.Pad2 | scrape_copernicus.py:142 | `f"{n:02d}"`: at least two characters; a single digit gets a leading `0`, and a larger number is its decimal text. |
| Text.PieceBeforeLast | multilevel_scraper.py:304 | `s.split(sep)[-2]`: None exactly when `s` has no separator (where Python raises). |
| Text.ReplaceAllAbsent | find_notebooks.py:228-229 | `str.replace` with a pattern that does not occur returns the string unchanged. |
| Collect.DedupByKey | deep_scraper.py:334-341 | Keeps the first element per key among those it may keep, in order: exactly `FirstOfEach`. The keys are distinct, each kept element is the first with its key, and every key of the input is kept. |
| Collect.Tally | deep_scraper.py:351-357 | The counts per label: each label once, with its number of occurrences; absent labels have none. |
| Collect.SliceTo | smart_scraper.py:352-355 | Python `s[:n]`, including a negative `n` counted from the end. |
| Collect.Filter | multilevel_scraper.py:271 | A list comprehension with a condition: every kept element is in the input and passes, every passing element is kept, and the length is the number that pass. |
| Collect.FilterExactly | multilevel_scraper.py:271 | Filtering keeps order and multiplicity: the filter of a concatenation is the concatenation of the filters, and one element is kept exactly when it passes. |
| Collect.PickEachMembers | multilevel_scraper.py:114-125 | The one-pass-per-pattern scan yields exactly the elements matching some pattern. |
| Crawl.LogVisit | deep_scraper.py:208-211 | Adding a url to `visited` and logging its request keeps "visited = requested". |
| Sanitize.DropForbidden | scrape_copernicus.py:160 | `re.sub(r'[<>:"/\\|?*]', '', …)`: no forbidden character is left, and the essential characters are kept in order. |
| Sanitize.DropForbiddenExactly | scrape_copernicus.py:160 | Deleting works character by character and only on the class: the result of a concatenation is the concatenation of the results, a forbidden character vanishes and any other is kept. |
| Sanitize.SpacesToUnderscores | scrape_copernicus.py:162 | `replace(' ', '_')`: same length; each space becomes `_` and every other character is kept. |
| Sanitize.CollapseUnderscores | scrape_copernicus.py:164 | `re.sub(r'_+', '_', …)`: no `__` is left, the first character and the essential characters are kept, and a clean name stays clean. |
| Sanitize.CollapseSplit | scrape_copernicus.py:164 | Each maximal run of underscores is collapsed on its own: splitting the input anywhere except inside a run splits the result the same way. |
| Sanitize.CollapseRun | scrape_copernicus.py:164 | A run of one or more underscores becomes exactly one `_`. |
| Sanitize.CollapseKeeps | scrape_copernicus.py:164 | A name without two adjacent underscores is unchanged, so nothing outside the runs is touched. |
| Sanitize.StripLeading | scrape_copernicus.py:166 | `strip('_')` at the front: a suffix of the input that does not start with `_`, with the same essential characters. |
| Sanitize.StripTrailing | scrape_copernicus.py:166 | `strip('_')` at the back: a prefix of the input that does not end with `_`, with the same essential characters. |
| Sanitize.Cut | scrape_copernicus.py:168 | `[:50]` when longer: a prefix of at most 50 characters, the whole input when it fits. |
| Sanitize.SanitizeFilenameEnds | scrape_copernicus.py:160-168 | The name has at most 50 characters and never starts with `_`. It ends with `_` only when the cut at 50 fell after one. |
| Sanitize.SanitizeFilenameChars | scrape_copernicus.py:160-162 | No forbidden character and no space is left. |
| Sanitize.SanitizeFilenameSingleUnderscores | scrape_copernicus.py:164 | No two underscores are adjacent. |
| Sanitize.SanitizeFilenameKeeps | scrape_copernicus.py:160-168 | The essential characters (neither forbidden, a space nor `_`) survive in order, as a prefix of the input's; when the name is shorter than 50, all of them survive. |
| Cache.Removed | scrape_copernicus_enhanced.py:112-124 | `remove_cache`: the key is gone and the file is deleted. Every other entry and file is unchanged, and an absent key changes nothing. On a well-keyed index every remaining entry keeps its file, and the index stays well keyed. |
| Cache.LookupAbsent | scrape_copernicus_enhanced.py:62-67 | A url with no index entry is not cached, `get_cached_file` gives None, and nothing changes. |
| Cache.CachedFileAgrees | scrape_copernicus_enhanced.py:81-88 | `get_cached_file` is None exactly when `is_cached` is false, and both leave the same store. Otherwise it names the entry's file. |
| Cache.AddedThenCached | scrape_copernicus_enhanced.py:62-79 | Right after `add_to_cache` at time t, a lookup with `now - t <= expire_days·86400` is a hit and changes nothing. |
| Cache.AddedThenExpired | scrape_copernicus_enhanced.py:70-75 | After more than `expire_days` days the added entry is a miss, and the lookup removes it. |
| Cache.ExpiredLookupRemoves | scrape_copernicus_enhanced.py:70-75 | A lookup of an expired entry answers false and removes both the entry and its file. |
| Cache.RemovedIdempotent | scrape_copernicus_enhanced.py:112-124 | Removing twice is removing once. |
| Cache.AddedReplaces | scrape_copernicus_enhanced.py:92-107 | The key maps to the new entry, named `<key>_<name>` with the given time and size. Other entries are untouched, and the index stays well keyed. On a well-keyed index the new copy overwrites no other entry's file. |
| Cache.ClearedExactly | scrape_copernicus_enhanced.py:126-139 | `clear_expired` keeps exactly the entries that are not expired, unchanged, and the kept and expired counts add up to the old count. On a well-keyed index every kept entry keeps its file. |
| Cache.Key | scrape_copernicus_enhanced.py:58-60 | The key of a url contains no `_`, as a hex digest does. |
| Cache.KeyInjective | scrape_copernicus_enhanced.py:58-60 | Different urls have different keys. |
| Cache.CacheFilenameInjective | scrape_copernicus_enhanced.py:93 | `<key>_<name>` with a key free of `_` determines both the key and the name. |
| Cache.DistinctFiles | scrape_copernicus_enhanced.py:92-104 | In a well-keyed index, entries that share a cached file are the same entry. |
| Cache.OthersFiledApart | scrape_copernicus_enhanced.py:112-122 | In a well-keyed index, no other entry has the file of the entry being removed. |
| Cache.ClearStep | scrape_copernicus_enhanced.py:135-137 | Removing one more key, by its entry's url, extends the partial clear by that key and keeps the index keyed by url. |
| Cache.CacheManager.constructor | scrape_copernicus_enhanced.py:34-44 | The store is the index and files loaded at start, with the given expiry. |
| Cache.CacheManager.IsCached | scrape_copernicus_enhanced.py:62-79 | The answer and the new store are those of `Lookup`. |
| Cache.CacheManager.GetCachedFile | scrape_copernicus_enhanced.py:81-88 | The answer and the new store are those of `CachedFile`. |
| Cache.CacheManager.AddToCache | scrape_copernicus_enhanced.py:90-110 | The new store is `Added` when the copy succeeds; a failed copy changes nothing and reports it. |
| Cache.CacheManager.RemoveCache | scrape_copernicus_enhanced.py:112-124 | The new store is `Removed`. |
| Cache.CacheManager.ClearExpired | scrape_copernicus_enhanced.py:126-139 | The new store is `Cleared`, and the count is the number of expired keys. |
| Cache.CacheManager.RemoveEach | scrape_copernicus_enhanced.py:135-137 | Removing a set of present keys one by one gives the partial clear of exactly those keys. |
| Downloader.Fetch | scrape_copernicus_enhanced.py:205-226 | A request is made and nothing is marked cached. Success exactly when the request answers, with its size. A failure carries the request error. |
| Downloader.Download | scrape_copernicus_enhanced.py:171-228 | A cached file succeeds from the cache without a request. A failure always carries an error. |
| Downloader.DownloadHit | scrape_copernicus_enhanced.py:194-203 | With a fresh cache entry: a success marked cached, with the cached size and an unchanged store. |
| Downloader.DownloadRequestFails | scrape_copernicus_enhanced.py:205-226 | A miss whose request raises fails with the request error and leaves no cache entry. |
| Downloader.DownloadStores | scrape_copernicus_enhanced.py:205-223 | A miss that answers succeeds with the response size. The url is cached unless the copy fails, which still leaves success true. |
| Downloader.Batch | scrape_copernicus_enhanced.py:230-270 | One result per task, with that task's url and path. |
| Downloader.BatchCounts | scrape_copernicus_enhanced.py:454-456 | Successes plus failures equal the number of tasks, and cached results are successes. |
| Downloader.Pending | scrape_copernicus_enhanced.py:437-446 | At most one task per resource, and no task for a file that exists with a non-zero size. |
| Downloader.PendingExactly | scrape_copernicus_enhanced.py:441-446 | A resource gets a task exactly when its file is missing or empty. |
| Downloader.ParallelDownloader.constructor | scrape_copernicus_enhanced.py:145-153 | The downloader uses the given cache manager, or none. |
| Downloader.ParallelDownloader.DownloadFile | scrape_copernicus_enhanced.py:171-228 | The result and the new cache are those of `Download`. |
| Downloader.ParallelDownloader.DownloadBatch | scrape_copernicus_enhanced.py:230-270 | The results and the new cache are those of `Batch`. |
| Downloader.ParallelDownloader.ProcessTutorial | scrape_copernicus_enhanced.py:426-474 | Runs the batch of exactly the pending tasks. The report holds its results and the numbers of successes, cached results and failures; the cache is the batch's. |
| Tutorials.Absolute | scrape_copernicus.py:129-130 | The result starts with `http` and ends with the link; it is the link itself when that already starts with `http`, and `https://marine.copernicus.eu` followed by the link otherwise. |
| Tutorials.AbsoluteIdempotent | scrape_copernicus.py:129-130 | Making a url absolute twice is making it absolute once. |
| Tutorials.Discovered | scrape_copernicus.py:137-144 | The tutorials are numbered 1 … n in order. |
| Tutorials.DiscoveredDistinct | scrape_copernicus.py:137 | No two discovered tutorials share a url. |
| Tutorials.DiscoveredComplete | scrape_copernicus.py:125-137 | The resolved url of every matched element with an href is listed. |
| Tutorials.DiscoveredOrigin | scrape_copernicus.py:133-143 | Tutorial k is number k + 1, made from the first element carrying its url; its folder is `Pad2(id)` + `_` + its title. |
| Tutorials.ExtractTutorialLinks | scrape_copernicus.py:89-147 | The loop returns exactly `Discovered`. |
| Tutorials.Resolve | scrape_copernicus.py:205-209 | An `http` href is kept as it is; a `/`-led one is appended to the site; any other is appended to the page url after a `/`. The result always ends with the href. |
| Tutorials.FilenameOf | scrape_copernicus.py:212-214 | Non-empty and free of `/` and `?`. When the last path piece is empty or starts with `?` it is `unknown_file`. Otherwise it is the longest prefix of that piece before any `?`. |
| Tutorials.KindOf | scrape_copernicus.py:219 | The type has no `.`. A name with a `.` ends with `.` + type; a name without one has type `unknown`. |
| Tutorials.FilenameIgnoresBase | scrape_copernicus.py:205-214 | The file name of a non-empty href depends on the href only, not on the page url. |
| Tutorials.DescribeAllCount | scrape_copernicus.py:199-202 | One resource per non-blank href. |
| Tutorials.DescribeAllWellFormed | scrape_copernicus.py:199-220 | Every resource has a non-empty file name without `/` or `?`, a type without `.`, and an absolute url when the page url is one. |
| Tutorials.ExtractResources | scrape_copernicus.py:170-222 | The loop returns exactly `DescribeAll` of the hrefs. |
| Tutorials.Backoff | scrape_copernicus.py:261 | `n` waits, the k-th of 2^k seconds. |
| Tutorials.DownloadWithRetry | scrape_copernicus.py:236-263 | At most `retry` attempts, stopping at the first success. Ok exactly when some attempt works. Waits 2^k after every failed attempt but the last. `retry <= 0` fetches nothing. |
| Tutorials.ProcessedCounts | scrape_copernicus.py:294-312 | Successes plus failures equal the number of resources. Skipped existing files count as successes; the failures are the tried files that did not download. |
| Tutorials.ProcessedListed | scrape_copernicus.py:298-312 | Every tried resource is one of the list whose file was not present, tried with the retry loop. The files afterwards are the present ones plus those downloaded. |
| Tutorials.ProcessedMissingFailed | scrape_copernicus.py:303-310 | A resource whose file is still missing afterwards was tried and recorded as failed. |
| Tutorials.ProcessTutorial | scrape_copernicus.py:265-314 | The loop returns exactly `Processed`. |
| Deep.FirstContained | deep_scraper.py:63-71 | The first key contained in the text, none before it contained; None when no key is. |
| Deep.IsDownloadableFileExactly | deep_scraper.py:58-78 | A link is a file exactly when its lowered url has a target extension, or a download keyword, or a hosting pattern matches. |
| Deep.ExtensionOf | deep_scraper.py:93-97 | The first target extension the lowered name contains; None when it contains none. |
| Deep.ClassifySourceFirstMatch | deep_scraper.py:131-144 | The source is the first matching host label; `other` when none matches. |
| Deep.ContentTypeExtension | deep_scraper.py:112-118 | The first test that holds decides: `zip` gives `.zip`, else `notebook` or `json` gives `.ipynb`, else `netcdf` gives `.nc`, and none of them gives no extension; each is a target extension. |
| Deep.ExtractFileInfo | deep_scraper.py:80-129 | Same url, source by `classify_source`, and link text cut to 100. A name with an extension is kept. The HEAD probe is used only for a `download` url without one, and then the name is the Content-Disposition name (else the base name) and the extension is the one the content type gives. |
| Deep.DirectFilesMembers | deep_scraper.py:226-238 | The direct files of a page are exactly its file links, described. |
| Deep.ScanAnchors | deep_scraper.py:226-238 | The anchor loop returns the direct files. |
| Deep.DeepScraper.constructor | deep_scraper.py:20-27 | No url visited and no request logged, with the given depth limit. |
| Deep.DeepScraper.Visit | deep_scraper.py:211 | The url joins `visited` and its request is logged at its depth. |
| Deep.FollowLimit | deep_scraper.py:285 | `all_links[:20]`: at most 20 anchors and at most all of them, and exactly one of the two. |
| Deep.CrawlOf | deep_scraper.py:205-306 | A crawl never forgets a visited url. Above the depth limit or on a visited url it returns nothing and changes nothing. Otherwise the url is visited afterwards, and a page that answered returns all of its own files. |
| Deep.FollowOf | deep_scraper.py:277-301 | Step 5 over the first n anchors never forgets a visited url. |
| Deep.FollowOfVisits | deep_scraper.py:285-301 | Every relevant same-host anchor among the first n has its target visited once step 5 has passed it. |
| Deep.CrawlOfFollows | deep_scraper.py:277-301 | Below the depth limit, every relevant same-host anchor among a fresh page's first 20 has its target visited when the crawl returns. |
| Deep.CrawlOfComplete | deep_scraper.py:205-306 | Every page newly visited by a crawl that answered has all its files, with their multiplicity, among the crawl's results. |
| Deep.FollowOfComplete | deep_scraper.py:277-301 | The same for step 5 over the first n anchors. |
| Deep.ScrapeOf | deep_scraper.py:326-332 | The crawls of the start urls in order, sharing the visited set, never forget a visited url. |
| Deep.ScrapeOfVisits | deep_scraper.py:326-332 | With a depth limit of 0 or more, every start url is visited. |
| Deep.ScrapeOfComplete | deep_scraper.py:326-332 | Every page the scrape newly visits that answered has all its files among the collected ones. |
| Deep.DeepScraper.DeepCrawl | deep_scraper.py:205-306 | The result and the new visited set are exactly `CrawlOf` with the crawler's keyword test. Above the depth limit or on a visited url nothing happens. Otherwise the url is requested at its depth, every request stays within depth … limit, and every file found is a file of a page requested in this crawl. |
| Deep.DeepScraper.FollowAnchors | deep_scraper.py:277-301 | The result and the new visited set are exactly `FollowOf` over the first 20 anchors. The depth bounds and the provenance of every file hold. |
| Deep.DeepScraper.ScrapeResources | deep_scraper.py:308-359 | The resources are exactly the first file per url of `ScrapeOf`, in order, and the visited set is the one after those crawls. They are distinct by url and come from requested pages. The total is their number, and the two tallies count them by extension and by source. |
| Deep.Sanitized | deep_scraper.py:379 | `re.sub(r'[^\w\-_.]', '_', …)`: same length; a word character, `-`, `_` or `.` is kept, and every other character becomes `_`. |
| Deep.SafeNameShape | deep_scraper.py:379-385 | The name is never empty. It is exactly the sanitized name (or `file_<i>` for an empty one), plus `.<ext>` when an extension is known and the name does not already end with it. |
| Deep.DownloadsOnePerResource | deep_scraper.py:373-433 | One outcome per resource, in order. An outcome names its file unless it failed, and a success had its request answer. |
| Deep.DownloadsFresh | deep_scraper.py:389-397 | With distinct names, none already present, nothing is skipped and each resource succeeds exactly when its request answers. |
| Deep.DownloadsSkipOnly | deep_scraper.py:387-401 | A resource is skipped exactly when its name was in the directory at the start or was written by an earlier success; any other resource is requested and succeeds exactly when its request answers, so a success's name was absent at its step. |
| Deep.DownloadResources | deep_scraper.py:361-435 | The loop's outcomes are those of `DownloadsFrom`. |
| Multilevel.DirectDownloadsExactly | multilevel_scraper.py:106-127 | A direct download is exactly the entry of an anchor whose lowered href holds a file pattern. |
| Multilevel.DownloadButtonsExactly | multilevel_scraper.py:129-154 | The unvisited targets of the buttons with an href, all of them and nothing else; none is visited. |
| Multilevel.TutorialSubpagesExactly | multilevel_scraper.py:156-176 | Every same-host, non-fragment link with a keyword is a sub-page, and every sub-page comes from one. |
| Multilevel.ExternalPlatformsExactly | multilevel_scraper.py:178-200 | Exactly the non-empty hrefs whose lowered text names a platform. |
| Multilevel.MercatorRewrite | multilevel_scraper.py:80-93 | A Mercator share link becomes `<link>/download`, which is not rewritten again; the piece before the last `/` of the new url is the last piece of the link. |
| Multilevel.ExternalResourceKeeps | multilevel_scraper.py:80-99 | Only Mercator links that already end in `/download` add nothing. Any other link is kept as an external resource. |
| Multilevel.ExternalUrlsDistinct | multilevel_scraper.py:80-99 | Two different links never add the same url. |
| Multilevel.ExternalsOfFrom | multilevel_scraper.py:77-99 | Every resource step 4 adds is what one of the listed links adds. |
| Multilevel.ExternalsOfDistinct | multilevel_scraper.py:77-99 | Over distinct links, the added resources are distinct by url. |
| Multilevel.ExternalsOfAll | multilevel_scraper.py:77-99 | When no link makes the `share_id` slice raise, every link's resource is added. |
| Multilevel.AddExternal | multilevel_scraper.py:77-99 | The loop adds exactly `ExternalsOf` of the links in their listed order, stopping at a link whose `share_id` slice raises. |
| Multilevel.MultiLevelScraper.constructor | multilevel_scraper.py:18-26 | No url visited, no request logged. |
| Multilevel.MultiLevelScraper.Visit | multilevel_scraper.py:42 | The url joins `visited` and its request is logged. |
| Multilevel.LevelOf | multilevel_scraper.py:36-104 | A crawl never forgets a visited url. Too deep or on a visited url it returns nothing and changes nothing. Otherwise the url is visited afterwards. Defined for any `plan` of the page finders' results; the scraper follows `PlanOf`. |
| Multilevel.LevelOfOwn | multilevel_scraper.py:48-58 | A crawl that requests a page that answers returns that page's direct downloads first. |
| Multilevel.SubpagesTaken | multilevel_scraper.py:67-69 | Below the depth limit, the first five listed sub-pages (all of them when fewer); none at the limit. |
| Multilevel.PageOf | multilevel_scraper.py:48-104 | The body of a crawl on a page never forgets a visited url. |
| Multilevel.LinksOf | multilevel_scraper.py:61-74 | Following targets one level down never forgets a visited url. |
| Multilevel.LinksOfStep | multilevel_scraper.py:61-74 | One more target adds the crawl one level down from it, on the visited set so far, unless it is passed over as already visited. |
| Multilevel.LinksOfVisits | multilevel_scraper.py:61-74 | Below the depth limit, every target is visited once passed. |
| Multilevel.LinksOfAtLimit | multilevel_scraper.py:61-64 | At the depth limit the button targets are still followed, but each call returns at once: nothing is found and nothing is visited. |
| Multilevel.PageOfFollows | multilevel_scraper.py:58-74 | When the plan is the finders' results, then below the depth limit every unvisited button target and each of the first five sub-pages is visited when the page is done. |
| Multilevel.LevelOfComplete | multilevel_scraper.py:36-104 | Every page newly visited by a crawl that answered has all its direct downloads, with their multiplicity, among the crawl's results. |
| Multilevel.PageOfComplete | multilevel_scraper.py:48-104 | The same for the body of a crawl on one page. |
| Multilevel.LinksOfComplete | multilevel_scraper.py:61-74 | The same for the targets followed from one page. |
| Multilevel.TestsOf | multilevel_scraper.py:218-223 | The crawls of the test urls, in order and sharing the visited set, never forget a visited url. |
| Multilevel.MultiLevelScraper.FollowTutorialPath | multilevel_scraper.py:28-34 | The result and the new visited set are exactly `LevelOf` from depth 0, under the plan `PlanOf` of the page finders. Requests stay within depth 0 … max, and every resource comes from a requested page. |
| Multilevel.MultiLevelScraper.CrawlLevel | multilevel_scraper.py:36-104 | The result and the new visited set are exactly `LevelOf`. Too deep or visited does nothing; otherwise the url is requested first, and the depth bounds and provenance hold. |
| Multilevel.MultiLevelScraper.CrawlPage | multilevel_scraper.py:48-104 | The result and the new visited set are exactly `PageOf`: direct downloads, then the button targets, then the first five sub-pages, then the external links. The depth bounds and the provenance hold. |
| Multilevel.MultiLevelScraper.FollowLinks | multilevel_scraper.py:61-74 | The result and the new visited set are exactly `LinksOf` over all the targets given. The depth bounds and the provenance hold. |
| Multilevel.MultiLevelScraper.TestSpecificTutorials | multilevel_scraper.py:202-258 | The resources are exactly the first per url of `TestsOf` under `PlanOf`, in order, and the visited set is the one after those crawls. They are distinct by url, from requested pages within depth 2, and tallied by type. |
| Multilevel.MultiLevelScraper.DownloadFoundResources | multilevel_scraper.py:260-330 | One attempt per selected Mercator resource, numbered from 1, as `AttemptOf` says. A name that is the directory or its parent always fails. Any other name is saved only when `opens` says it can be written. |
| Multilevel.MultiLevelScraper.Download | multilevel_scraper.py:273-330 | One attempt is exactly `AttemptOf`. `AttemptOfSaved` gives its cases, including the failed write. |
| Multilevel.SelectedBounds | multilevel_scraper.py:271-273 | Only Mercator resources, in order, and at most `max_downloads` of them. |
| Multilevel.MagicOfFirstFour | multilevel_scraper.py:317-325 | The first four bytes decide the label: PK is zip, %PDF is pdf. |
| Multilevel.AttemptsEach | multilevel_scraper.py:273 | One attempt per chosen resource, numbered from 1. |
| Multilevel.AttemptOfSaved | multilevel_scraper.py:280-330 | Saved exactly when the HEAD length is under 10 MiB, the GET answers, the file name can be formed, is not `""`, `.` or `..` (the directory or its parent), and opens for writing. The saved file has that name and the body's label. TooLarge exactly when the length is at least 10 MiB. |
| Multilevel.RewrittenFileName | multilevel_scraper.py:303-304 | A rewritten share link with no `content-disposition` is saved as the last piece of the link plus `.zip`. |
| Smart.Searched | smart_scraper.py:109-153 | Nothing beyond the depth limit or for a listing that fails; every entry is a `.ipynb` or `.zip` GitHub file. |
| Smart.SearchedFromApi | smart_scraper.py:113-150 | Every entry is the record of a wanted file item of a listing the walk reaches: the start listing, or one reached through a `dir` item whose lowered name holds a keyword, one level deeper each time while below `max_depth`. |
| Smart.SearchedComplete | smart_scraper.py:113-150 | Conversely, every `.ipynb` or `.zip` file item of a listing the walk reaches is found. |
| Smart.SearchGithubFiles | smart_scraper.py:109-153 | The list comes back with `Searched` appended; nothing already in it changes. |
| Smart.ClassifyLinkGitHubBranchUnreachable | smart_scraper.py:188-209 | A link adds an entry exactly when its lowered href has a file extension, and that entry always comes from the first branch. |
| Smart.LinksFoundFiles | smart_scraper.py:180-195 | Every entry of the scan is the `file` entry from `copernicus` of a link whose lower-cased href holds `.ipynb`, `.zip`, `.tar` or `.gz`: its url is the link's absolute url and its file name the last `/`-piece of the href. Conversely every such link gives its entry. |
| Smart.ScanPage | smart_scraper.py:180-209 | The loop returns exactly `LinksFound`. |
| Smart.FindDirectDownloads | smart_scraper.py:155-216 | The scans of the pages that answered, in order. |
| Smart.Run | smart_scraper.py:263-339 | The resources are exactly the first entry per non-empty url of the three searches concatenated, in order. They are distinct by url and every non-empty url found is covered. The total is their number, tallied by type and source. |
| Smart.TargetsBounds | smart_scraper.py:352-355 | Only `.ipynb`/`.zip` names, in order, at most `max_files`. |
| Smart.DownloadsFrom | smart_scraper.py:361-386 | One outcome per target. |
| Smart.DownloadsWriteOnce | smart_scraper.py:371-376 | A download happens only for a name not yet present. |
| Smart.DownloadsFresh | smart_scraper.py:371-376 | No file present at the start is written. |
| Smart.DownloadsDistinct | smart_scraper.py:371-386 | No two downloads share a file name. |
| Smart.DownloadsSkipOnly | smart_scraper.py:361-386 | A target is skipped for lack of a url exactly when it has none. It counts as already there exactly when it has a url and its name existed at the start or was written by an earlier download. Every other target with a url is fetched. |
| Smart.DownloadResources | smart_scraper.py:341-386 | The outcomes are `DownloadsFrom`, and the files present afterwards are the existing ones plus the names written. |
| Notebooks.ConvertToRawUrl | find_notebooks.py:224-231 | No `github.com` is left in the result. |
| Notebooks.ConvertBlobUrl | find_notebooks.py:224-231 | A GitHub page url `https://github.com/<owner>/<repo>/blob/<rest>` becomes `https://raw.githubusercontent.com/<owner>/<repo>/<rest>`, when owner and repository are single path pieces other than `blob`, `github.com` does not occur after the host and `/blob/` does not occur in the rest. |
| Notebooks.NoGitHubHostAfterRewrite | find_notebooks.py:228 | Replacing the host leaves no `github.com`, because the raw host adds none. |
| Notebooks.ConvertToRawUrlUnchanged | find_notebooks.py:227-231 | A url with neither `github.com` nor `/blob/` is returned as it is. |
| Notebooks.SearchedFromApi | find_notebooks.py:193-222 | Every notebook found is the record of a `.ipynb` file item of a listing the search reaches: the start listing, or one reached through a `dir` item whose lowered name holds `notebook`, `example`, `tutorial` or `demo`, one level deeper each time while below `max_depth`. |
| Notebooks.SearchedComplete | find_notebooks.py:193-222 | Conversely, every `.ipynb` file item of a listing the search reaches is found. |
| Notebooks.SearchForNotebooks | find_notebooks.py:193-222 | The list comes back with `Searched` appended. |
| Notebooks.UniqueNotebooks | find_notebooks.py:166-173 | Exactly the first notebook per url, in order: distinct by url, each the first with its url, and every url found is kept. |
| Notebooks.SortBySize | find_notebooks.py:250 | Sorted by size, same length. |
| Notebooks.SortBySizeStable | find_notebooks.py:250 | The sort is stable: the notebooks of each size keep their order. |
| Notebooks.Run | find_notebooks.py:252-285 | Never more than `max_downloads`, and once over it nothing more. Each success adds exactly one new file. |
| Notebooks.RunCompleteBelowLimit | find_notebooks.py:253-282 | Below the limit, every notebook whose url answers ends up on disk. |
| Notebooks.RunNewFiles | find_notebooks.py:257-282 | Every new file is the name of a queued notebook whose url answered. |
| Notebooks.DownloadNotebooks | find_notebooks.py:233-287 | The count and the files are those of `Run` over the notebooks sorted by size. |
| Series.RestoreShape | copernicus_utils.py:762-763 | Putting filtered values back keeps the length and the NaN positions. |
| Series.CompactRestore | copernicus_utils.py:762-763 | Compacting a restored series gives the filtered values back. |
| Series.RestoreCompact | copernicus_utils.py:738-739 | Restoring a series' own present values gives the series back. |
| Series.ApplyFilter | copernicus_utils.py:738-763 | Too short exactly when fewer than 2·order values are present. Bandpass needs two cutoffs, and an unknown filter is an error. A filter design or application that raises is an error. Otherwise the NaN positions are kept and the present values are the filtered ones. |
| Series.FirstPresentIsFirst | copernicus_utils.py:100-108 | The first candidate that is a dimension, none before it being one; the requested name when no candidate is. |
| Series.PickDim | copernicus_utils.py:100-108 | The loop returns exactly `FirstPresent`. |
| Series.ShiftLongitudeRange | copernicus_utils.py:111-112 | On a dataset with longitudes past 180, a bound from -360 on lands in 0 … 360. A bound is kept or moved by 360, shifting twice is shifting once, and otherwise bounds are left alone. |
| Series.SubsetRegion | copernicus_utils.py:96-112 | The lon/lat names are the first present candidates, else the requested ones; the longitude bounds are shifted and the latitude bounds kept. |
| Series.PairsExactly | copernicus_utils.py:627-629 | The pairs are exactly those with i < j, n(n-1)/2 of them. |
| Series.SlopesOfEach | copernicus_utils.py:629 | One slope per pair, with the pair's values and times. |
| Series.SenRowsIsSlopes | copernicus_utils.py:625-629 | The nested loops produce exactly the slopes of all ordered pairs. |
| Series.SenSlopes | copernicus_utils.py:625-629 | The loop returns exactly `SenRows`. |
| Series.CalculateTrend | copernicus_utils.py:583-638 | Fewer than three present values is an error, then an unknown method is. The linear fit of a dated series spanning less than a day divides by zero. Otherwise the fit is over the present values; for `sen` the slopes are those of the n(n-1)/2 ordered pairs. |
| Extremes.RunsFromAfter | copernicus_utils.py:828-862 | Every run found is a maximal run of flagged steps after the start. |
| Extremes.RunsFromApart | copernicus_utils.py:828-862 | The runs are in order, with at least one unflagged step between two of them. |
| Extremes.RunsExactly | copernicus_utils.py:821-862 | The runs are exactly the maximal runs of flagged steps. |
| Extremes.KeptMembers | copernicus_utils.py:840 | The duration filter keeps exactly the events that last at least `duration` (all of them without one). |
| Extremes.KeptApart | copernicus_utils.py:840-854 | Filtering keeps events separated by at least one unflagged step. |
| Extremes.ReportedExactly | copernicus_utils.py:836-853 | A reported run is exactly a maximal run of flagged steps whose duration is the length of its slice: the whole run for a date index, one less for an integer index sliced by position. |
| Extremes.ReportedApart | copernicus_utils.py:828-862 | The reported runs are in order, with at least one unflagged step between two of them. |
| Extremes.EventsFromKept | copernicus_utils.py:828-862 | The single pass from a step is the same as finding the runs, giving each its slice length and then keeping those that pass the duration filter. |
| Extremes.EventsExactly | copernicus_utils.py:821-862 | The events are exactly the maximal runs of flagged steps that pass the filter, each with its slice length, and they are apart. |
| Extremes.GroupEvents | copernicus_utils.py:824-862 | The loop returns exactly `Events`. |
| Extremes.DetectExtremes | copernicus_utils.py:808-862 | An error exactly when the threshold type is not `percentile`, `absolute` or `std`, naming that type; otherwise exactly `Events` of the mask. |
| Extremes.LongGapsMembers | copernicus_utils.py:979-983 | A gap is recorded exactly for a run longer than `max_gap` that ends before the series does. |
| Extremes.GapsExactly | copernicus_utils.py:971-984 | The recorded gaps are the closed NaN runs; a run reaching the end is never recorded. |
| Extremes.GapScan | copernicus_utils.py:971-984 | The loop returns exactly `Gaps`. |
| Extremes.MaxGapLength | copernicus_utils.py:986 | The longest recorded gap, 0 when none. |
| Extremes.QualityGapRule | copernicus_utils.py:989-993 | With the scan on and a positive `max_gap`: pass exactly when coverage is at least the minimum, under 5% is out of range, and no NaN run closed before the end is longer than `max_gap`. |
| Extremes.QualityCheck | copernicus_utils.py:947-993 | The report is `QualityOf` of the series. |

## Left out

- Network, disk, clocks and sleeping are inputs. Pages, API listings, HEAD/GET answers and existing files are maps or functions. Time is an integer number of seconds. A request that raises is an absent key or `None`.
- HTML parsing (BeautifulSoup, Selenium) is not modelled: each page is given as its anchors, buttons and links, already extracted in document order.
- `urljoin` and `urlparse` are abstracted: an anchor carries its resolved target and that target's host.
- Iteration order of Python sets is unspecified. Set-valued results are modelled as sets. The multi-level crawl takes an input `order` that lists each set it iterates, every element once. This makes the order a function of the set's contents, while CPython's order also depends on insertion history; the properties proved hold for every such `order`.
- Multilevel.LevelOf: the crawl specification takes the page finders' results as a parameter `plan`, by url, depth and visited set, and its lemmas hold for any plan; the scraper's methods are tied to the plan `PlanOf` that the finders give under `order`.
- Deep.CrawlOf: the crawl specification takes the keyword test as a parameter `relevant`, and its lemmas hold for any test; the crawler's methods are tied to it with the keyword test `Relevant`.
- Deep.DeepScraper.ScrapeResources: the start urls are a parameter rather than the six fixed ones.
- The GitHub repository listing and search of `find_github_notebooks` and `find_copernicus_notebooks` are not modelled beyond the walk and the de-duplication.
- `find_zenodo_resources` and the other external searches of the smart scraper are inputs to `Smart.Run`.
- `find_github_resources` and the script and data-attribute scans of the deep scraper are given as the page's extra file links.
- Deep.DeepScraper.DeepCrawl: an exception part-way through a page is not modelled; an absent page yields nothing.
- Deep.IsDownloadableFileExactly: the regular-expression hosting patterns are an input predicate (`hosted`).
- The `content-disposition` regular expression is modelled by its result, an optional file name.
- Deep.Sanitized: `\w` is an input predicate `isWord`, because Python's Unicode word categories are not modelled.
- Cache.Key: the MD5 hex digest is not computed. The key is the url written two characters per character, which shares the two properties the cache relies on: it contains no `_`, and different urls have different keys. So, as with the digest, `<key>_<name>` file names never collide.
- Downloader.ParallelDownloader.DownloadBatch: the thread pool is modelled as a sequential loop, and results follow task order rather than completion order.
- Downloader.ParallelDownloader.DownloadBatch: one `copyOk` flag stands for whether the cache copy succeeds, for the whole batch.
- The JSON index file of `CacheManager` and its load/save are not modelled; the index is a map field.
- `datetime` is an integer clock; `timedelta(days=d)` is `d·86400` seconds.
- Floating point and statistics are not modelled: `linregress`, `polyfit`, the median of the slopes, the Butterworth design and `filtfilt`.
- Series.ApplyFilter: `butter` and `filtfilt` together are a function parameter that gives `None` where they raise; when they raise (a cutoff outside (0, 1), data no longer than the padding) is not computed.
- Extremes.DetectExtremes: the threshold (a percentile, a value, or the mean plus a multiple of the standard deviation) and the comparison `ts > threshold` are not computed; the mask of flagged steps is an input, and so is the kind of index, as `byLabel`. The maximum, mean and summed excess of each event are floating point and not modelled.
- Series.CalculateTrend: the date index is not modelled; its span in whole days between the first and last present value is an input.
- Plotting, `main`, the command-line entry points, the test scripts and printing are not part of this model.
- A partially written file left behind by a failed download is not modelled.
- Multilevel.AttemptOf: apart from `""`, `.` and `..`, whether `open(download_dir / name, 'wb')` succeeds is an input (`opens`). It covers missing sub-directories named in a `content-disposition` file name, permissions and the disk.
- Textual Unicode handling is not modelled: lowering is ASCII only, and strings are sequences of characters.
