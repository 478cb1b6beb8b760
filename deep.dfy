/** The deep scraper: URL predicates that decide what counts as a file and
    where it is hosted, a depth-limited crawl over a graph of pages that
    fetches every URL at most once, the de-duplication and counts of the
    scrape, and the download loop with its safe file names. A page is given
    with its anchors already resolved against the page URL; the anchors'
    file information, the regular-expression hosting check and the
    resources found by the GitHub, script and data-attribute scans are
    inputs. */
module Deep {
  import opened Wrappers
  import opened Text
  import opened Collect
  import opened Crawl

  // ---- first-match scans ----

  /** Position of the first key that occurs in `s`. */
  function FirstContained(keys: seq<string>, s: string): (r: Option<nat>)
    ensures r.Some? ==> r.value < |keys| && Contains(s, keys[r.value]) &&
                        forall j :: 0 <= j < r.value ==> !Contains(s, keys[j])
    ensures r.None? ==> forall j :: 0 <= j < |keys| ==> !Contains(s, keys[j])
  {
    if keys == [] then None
    else if Contains(s, keys[0]) then Some(0)
    else
      var rest := FirstContained(keys[1..], s);
      assert forall j :: 0 < j < |keys| ==> keys[j] == keys[1..][j - 1];
      if rest.None? then None else Some(rest.value + 1)
  }

  const TargetExtensions: seq<string> :=
    [".ipynb", ".zip", ".tar", ".gz", ".tar.gz", ".7z", ".nc", ".netcdf", ".hdf", ".hdf5", ".grib", ".grib2"]

  const DownloadKeywords: seq<string> := ["download", "export", "get", "fetch", "retrieve"]

  /** `is_downloadable_file(url)`; `hosted` is the outcome of the
      case-insensitive search for a file-hosting pattern in `url`. */
  predicate IsDownloadableFile(url: string, hosted: bool)
  {
    FirstContained(TargetExtensions, Lower(url)).Some? || FirstContained(DownloadKeywords, Lower(url)).Some? || hosted
  }

  /** A URL is a file link exactly when its lower-cased form contains a
      target extension or a download keyword, or a hosting pattern matches. */
  lemma IsDownloadableFileExactly(url: string, hosted: bool)
    ensures IsDownloadableFile(url, hosted) <==>
              (exists j :: 0 <= j < |TargetExtensions| && Contains(Lower(url), TargetExtensions[j])) ||
              (exists j :: 0 <= j < |DownloadKeywords| && Contains(Lower(url), DownloadKeywords[j])) ||
              hosted
  {
  }

  /** The extension `extract_file_info` reads off a file name: the first of
      the target extensions, in list order, found in the lower-cased name. */
  function ExtensionOf(filename: string): (r: Option<string>)
    ensures r.Some? ==> exists k :: 0 <= k < |TargetExtensions| && r.value == TargetExtensions[k] &&
                          Contains(Lower(filename), r.value) &&
                          forall j :: 0 <= j < k ==> !Contains(Lower(filename), TargetExtensions[j])
    ensures r.None? ==> forall j :: 0 <= j < |TargetExtensions| ==> !Contains(Lower(filename), TargetExtensions[j])
  {
    var k := FirstContained(TargetExtensions, Lower(filename));
    if k.Some? then Some(TargetExtensions[k.value]) else None
  }

  const SourceHosts: seq<string> := ["github.com", "gitlab.com", "copernicus", "mercator", "zenodo.org"]
  const SourceNames: seq<string> := ["github", "gitlab", "copernicus", "mercator", "zenodo"]

  /** `classify_source(url)`: case-sensitive, first match wins. */
  function ClassifySource(url: string): string
  {
    var k := FirstContained(SourceHosts, url);
    if k.Some? then SourceNames[k.value] else "other"
  }

  /** The source is the name of the first host, in the order github.com,
      gitlab.com, copernicus, mercator, zenodo.org, that occurs in the URL,
      and "other" when none does. */
  lemma ClassifySourceFirstMatch(url: string, k: nat)
    requires k < |SourceHosts|
    ensures ClassifySource(url) == SourceNames[k] <==>
              Contains(url, SourceHosts[k]) && forall j :: 0 <= j < k ==> !Contains(url, SourceHosts[j])
    ensures ClassifySource(url) == "other" <==> forall j :: 0 <= j < |SourceHosts| ==> !Contains(url, SourceHosts[j])
  {
    assert forall a, b :: 0 <= a < b < |SourceNames| ==> SourceNames[a] != SourceNames[b];
    assert forall a :: 0 <= a < |SourceNames| ==> SourceNames[a] != "other";
  }

  // ---- extract_file_info ----

  /** What `extract_file_info` keeps of a link. */
  datatype FileInfo = FileInfo(url: string, filename: string, extension: Option<string>, linkText: string,
                               sourceType: string)

  /** The answer to the HEAD request: its content type and the file name
      found in its Content-Disposition header, if any. */
  datatype Probe = Probe(contentType: string, dispositionName: Option<string>)

  /** The extension guessed from a content type: the first of `zip`,
      `notebook` or `json`, and `netcdf` that the content type holds decides,
      and none of them gives no extension. */
  function ContentTypeExtension(contentType: string): (r: Option<string>)
    ensures r.Some? ==> r.value in TargetExtensions
    ensures r == Some(".zip") <==> Contains(contentType, "zip")
    ensures r == Some(".ipynb") <==>
              !Contains(contentType, "zip") && (Contains(contentType, "notebook") || Contains(contentType, "json"))
    ensures r == Some(".nc") <==>
              !Contains(contentType, "zip") && !Contains(contentType, "notebook") && !Contains(contentType, "json") &&
              Contains(contentType, "netcdf")
    ensures r.None? <==>
              !Contains(contentType, "zip") && !Contains(contentType, "notebook") && !Contains(contentType, "json") &&
              !Contains(contentType, "netcdf")
  {
    if Contains(contentType, "zip") then Some(".zip")
    else if Contains(contentType, "notebook") || Contains(contentType, "json") then Some(".ipynb")
    else if Contains(contentType, "netcdf") then Some(".nc")
    else None
  }

  /** The last segment of the URL path, or the digest of the URL when that
      is shorter than three characters. */
  function BaseName(path: string, digest: string): string
  {
    var name := AfterLast(path, '/');
    if |name| < 3 then digest else name
  }

  const MaxLinkText: nat := 100

  /** `extract_file_info(url, link_text)`: `path` is the decoded path of
      `url`, `digest` the first 8 hex digits of its MD5, and `probe` the HEAD
      response (None when the request raised). */
  function ExtractFileInfo(url: string, path: string, linkText: string, digest: string, probe: Option<Probe>)
    : (r: FileInfo)
    ensures r.url == url && r.sourceType == ClassifySource(url)
    ensures r.linkText <= linkText && |r.linkText| == if |linkText| < MaxLinkText then |linkText| else MaxLinkText
    ensures r.extension.Some? ==> r.extension.value in TargetExtensions
    ensures ExtensionOf(BaseName(path, digest)).Some? ==>
              r.filename == BaseName(path, digest) && r.extension == ExtensionOf(BaseName(path, digest))
    ensures !Contains(Lower(url), "download") || probe.None? ==>
              r.filename == BaseName(path, digest) && r.extension == ExtensionOf(BaseName(path, digest))
    ensures ExtensionOf(BaseName(path, digest)).None? && Contains(Lower(url), "download") && probe.Some? ==>
              r.filename == (if probe.value.dispositionName.Some? then probe.value.dispositionName.value
                             else BaseName(path, digest)) &&
              r.extension == ContentTypeExtension(probe.value.contentType)
  {
    var base := BaseName(path, digest);
    var ext := ExtensionOf(base);
    var text := if |linkText| < MaxLinkText then linkText else linkText[..MaxLinkText];
    if ext.None? && Contains(Lower(url), "download") && probe.Some? then
      var name := if probe.value.dispositionName.Some? then probe.value.dispositionName.value else base;
      FileInfo(url, name, ContentTypeExtension(probe.value.contentType), text, ClassifySource(url))
    else
      FileInfo(url, base, ext, text, ClassifySource(url))
  }

  // ---- deep_crawl ----

  /** An `<a href>` of a page: its href, its stripped text, the absolute URL
      `urljoin` makes of it, that URL's network location, whether that URL
      matches one of the hosting-platform patterns, and the file information
      `extract_file_info` gives for it. */
  datatype Anchor = Anchor(href: string, text: string, target: string, targetHost: string, hosted: bool,
                           info: FileInfo)

  /** A page that answered: its network location, its anchors in document
      order, and the resources the GitHub, script and data-attribute scans
      find on it. */
  datatype Page = Page(host: string, anchors: seq<Anchor>, extra: seq<FileInfo>)

  /** The anchor is a file link: a non-empty href whose target passes
      `is_downloadable_file` and whose file information has an extension. */
  predicate IsFileLink(a: Anchor)
  {
    a.href != [] && IsDownloadableFile(a.target, a.hosted) && a.info.extension.Some?
  }

  function InfoOf(a: Anchor): FileInfo
  {
    a.info
  }

  /** The file information of the file links among `anchors`, in order. */
  function DirectFiles(anchors: seq<Anchor>): seq<FileInfo>
  {
    Select(anchors, IsFileLink, InfoOf)
  }

  /** Exactly the file links contribute, each its own file information. */
  lemma DirectFilesMembers(anchors: seq<Anchor>, f: FileInfo)
    ensures f in DirectFiles(anchors) <==> exists i :: 0 <= i < |anchors| && IsFileLink(anchors[i]) && anchors[i].info == f
  {
    SelectMembers(anchors, IsFileLink, InfoOf, f);
  }

  /** Step 1 of `deep_crawl`: the loop over the anchors of a page. */
  method ScanAnchors(anchors: seq<Anchor>) returns (files: seq<FileInfo>)
    ensures files == DirectFiles(anchors)
  {
    files := [];
    for i := 0 to |anchors|
      invariant files == DirectFiles(anchors[..i])
    {
      var a := anchors[i];
      SelectStep(anchors, IsFileLink, InfoOf, i);
      if a.href != [] && IsDownloadableFile(a.target, a.hosted) {
        var info := a.info;
        if info.extension.Some? {
          files := files + [info];
        }
      }
    }
    assert anchors[..|anchors|] == anchors;
  }

  /** Everything a fetched page contributes before its sub-pages. */
  function PageFiles(page: Page): seq<FileInfo>
  {
    DirectFiles(page.anchors) + page.extra
  }

  /** The page at `url` yields `x` itself. */
  predicate OwnFile(url: string, page: Page, x: FileInfo)
  {
    x in PageFiles(page)
  }

  const CrawlKeywords: seq<string> :=
    ["tutorial", "notebook", "example", "demo", "training", "learn", "education", "material", "resource",
     "download", "data", "dataset", "file", "github", "gitlab", "code"]

  const MaxFollowed: nat := 20

  /** A keyword occurs in the lower-cased text or the lower-cased href. */
  predicate Relevant(a: Anchor)
  {
    FirstContained(CrawlKeywords, Lower(a.text)).Some? || FirstContained(CrawlKeywords, Lower(a.href)).Some?
  }

  function InfoUrl(f: FileInfo): string
  {
    f.url
  }

  function InfoExtension(f: FileInfo): Option<string>
  {
    f.extension
  }

  function InfoSource(f: FileInfo): string
  {
    f.sourceType
  }

  /** The result of `scrape_copernicus_resources`. */
  datatype Summary = Summary(totalFound: nat, byExtension: seq<(Option<string>, nat)>,
                             bySource: seq<(string, nat)>, resources: seq<FileInfo>)

  /** How many anchors of a page step 5 of `deep_crawl` looks at. */
  function FollowLimit(page: Page): (r: nat)
    ensures r <= |page.anchors| && r <= MaxFollowed
    ensures r == MaxFollowed || r == |page.anchors|
  {
    if |page.anchors| < MaxFollowed then |page.anchors| else MaxFollowed
  }

  /** Step 5 of `deep_crawl` chooses the anchor: relevant, on the page's
      own host and not visited yet. */
  predicate Chosen(a: Anchor, page: Page, visited: set<string>, relevant: Anchor -> bool)
  {
    relevant(a) && a.targetHost == page.host && a.target !in visited
  }

  /** What `deep_crawl(url, depth)` returns, with the limit `maxDepth`, and
      the visited set after it, from the visited set before it. `relevant`
      is the keyword test, `Relevant` in the crawler; the properties below
      hold for any test. */
  function CrawlOf(web: map<string, Page>, maxDepth: int, relevant: Anchor -> bool, url: string, depth: int,
                   visited: set<string>)
    : (r: (seq<FileInfo>, set<string>))
    ensures visited <= r.1
    ensures depth > maxDepth || url in visited ==> r == ([], visited)
    ensures depth <= maxDepth && url !in visited ==> url in r.1
    ensures depth <= maxDepth && url !in visited && url in web ==> PageFiles(web[url]) <= r.0
    decreases maxDepth - depth, 1, 0
  {
    if depth > maxDepth || url in visited then ([], visited)
    else if url !in web then ([], visited + {url})
    else if depth < maxDepth then
      var sub := FollowOf(web, maxDepth, relevant, web[url], FollowLimit(web[url]), depth, visited + {url});
      (PageFiles(web[url]) + sub.0, sub.1)
    else (PageFiles(web[url]), visited + {url})
  }

  /** Step 5 of `deep_crawl` for `page` at `depth` over its first `n`
      anchors: what the crawls one level down return, and the visited set
      after them. */
  function FollowOf(web: map<string, Page>, maxDepth: int, relevant: Anchor -> bool, page: Page, n: nat, depth: int,
                    visited: set<string>)
    : (r: (seq<FileInfo>, set<string>))
    requires depth < maxDepth && n <= |page.anchors|
    ensures visited <= r.1
    decreases maxDepth - depth, 0, n
  {
    if n == 0 then ([], visited)
    else
      var prev := FollowOf(web, maxDepth, relevant, page, n - 1, depth, visited);
      var a := page.anchors[n - 1];
      if Chosen(a, page, prev.1, relevant) then
        var sub := CrawlOf(web, maxDepth, relevant, a.target, depth + 1, prev.1);
        (prev.0 + sub.0, sub.1)
      else prev
  }

  /** The follow rule: after step 5 over the first `n` anchors, anchor `i`
      among them that is relevant and on the page's own host has been
      visited, followed then or visited before. */
  lemma {:induction false} FollowOfVisits(web: map<string, Page>, maxDepth: int, relevant: Anchor -> bool, page: Page,
                                          n: nat, depth: int, visited: set<string>, i: nat)
    requires depth < maxDepth && i < n <= |page.anchors|
    requires relevant(page.anchors[i]) && page.anchors[i].targetHost == page.host
    ensures page.anchors[i].target in FollowOf(web, maxDepth, relevant, page, n, depth, visited).1
    decreases n
  {
    var prev := FollowOf(web, maxDepth, relevant, page, n - 1, depth, visited);
    assert prev.1 <= FollowOf(web, maxDepth, relevant, page, n, depth, visited).1;
    if i < n - 1 {
      FollowOfVisits(web, maxDepth, relevant, page, n - 1, depth, visited, i);
    }
  }

  /** Every page a crawl visits that answered contributes all of its files
      to what the crawl returns. */
  lemma {:induction false} CrawlOfComplete(web: map<string, Page>, maxDepth: int, relevant: Anchor -> bool, url: string,
                                           depth: int, visited: set<string>, u: string)
    requires u in CrawlOf(web, maxDepth, relevant, url, depth, visited).1 && u !in visited && u in web
    ensures multiset(PageFiles(web[u])) <= multiset(CrawlOf(web, maxDepth, relevant, url, depth, visited).0)
    decreases maxDepth - depth, 1, 0
  {
    if depth <= maxDepth && url !in visited && url in web && u != url && depth < maxDepth {
      var page := web[url];
      var sub := FollowOf(web, maxDepth, relevant, page, FollowLimit(page), depth, visited + {url});
      FollowOfComplete(web, maxDepth, relevant, page, FollowLimit(page), depth, visited + {url}, u);
      assert CrawlOf(web, maxDepth, relevant, url, depth, visited).0 == PageFiles(page) + sub.0;
    }
  }

  /** The same for step 5 over the first `n` anchors. */
  lemma {:induction false} FollowOfComplete(web: map<string, Page>, maxDepth: int, relevant: Anchor -> bool, page: Page,
                                            n: nat, depth: int, visited: set<string>, u: string)
    requires depth < maxDepth && n <= |page.anchors|
    requires u in FollowOf(web, maxDepth, relevant, page, n, depth, visited).1 && u !in visited && u in web
    ensures multiset(PageFiles(web[u])) <= multiset(FollowOf(web, maxDepth, relevant, page, n, depth, visited).0)
    decreases maxDepth - depth, 0, n
  {
    if n > 0 {
      var prev := FollowOf(web, maxDepth, relevant, page, n - 1, depth, visited);
      var a := page.anchors[n - 1];
      if u in prev.1 {
        FollowOfComplete(web, maxDepth, relevant, page, n - 1, depth, visited, u);
      } else if Chosen(a, page, prev.1, relevant) {
        CrawlOfComplete(web, maxDepth, relevant, a.target, depth + 1, prev.1, u);
      }
    }
  }

  /** A fresh page above the depth limit has every relevant same-host
      anchor among its first 20 visited by the time its crawl returns. */
  lemma CrawlOfFollows(web: map<string, Page>, maxDepth: int, relevant: Anchor -> bool, url: string, depth: int,
                       visited: set<string>, i: nat)
    requires depth < maxDepth && url !in visited && url in web && i < FollowLimit(web[url])
    requires relevant(web[url].anchors[i]) && web[url].anchors[i].targetHost == web[url].host
    ensures web[url].anchors[i].target in CrawlOf(web, maxDepth, relevant, url, depth, visited).1
  {
    FollowOfVisits(web, maxDepth, relevant, web[url], FollowLimit(web[url]), depth, visited + {url}, i);
  }

  /** What `scrape_copernicus_resources` collects before de-duplication:
      the crawls from `startUrls`, in order, each from depth 0 and sharing
      the visited set. */
  function ScrapeOf(web: map<string, Page>, maxDepth: int, relevant: Anchor -> bool, startUrls: seq<string>,
                    visited: set<string>)
    : (r: (seq<FileInfo>, set<string>))
    ensures visited <= r.1
    decreases |startUrls|
  {
    if startUrls == [] then ([], visited)
    else
      var prev := ScrapeOf(web, maxDepth, relevant, startUrls[..|startUrls| - 1], visited);
      var last := CrawlOf(web, maxDepth, relevant, startUrls[|startUrls| - 1], 0, prev.1);
      (prev.0 + last.0, last.1)
  }

  /** With a depth limit of 0 or more, every start URL is visited. */
  lemma {:induction false} ScrapeOfVisits(web: map<string, Page>, maxDepth: int, relevant: Anchor -> bool,
                                          startUrls: seq<string>, visited: set<string>, k: nat)
    requires 0 <= maxDepth && k < |startUrls|
    ensures startUrls[k] in ScrapeOf(web, maxDepth, relevant, startUrls, visited).1
    decreases |startUrls|
  {
    var n := |startUrls| - 1;
    if k < n {
      ScrapeOfVisits(web, maxDepth, relevant, startUrls[..n], visited, k);
      assert startUrls[..n][k] == startUrls[k];
    }
  }

  /** Every page the scrape visits that answered contributes all of its
      files. */
  lemma {:induction false} ScrapeOfComplete(web: map<string, Page>, maxDepth: int, relevant: Anchor -> bool,
                                            startUrls: seq<string>, visited: set<string>, u: string)
    requires u in ScrapeOf(web, maxDepth, relevant, startUrls, visited).1 && u !in visited && u in web
    ensures multiset(PageFiles(web[u])) <= multiset(ScrapeOf(web, maxDepth, relevant, startUrls, visited).0)
    decreases |startUrls|
  {
    var n := |startUrls| - 1;
    var prev := ScrapeOf(web, maxDepth, relevant, startUrls[..n], visited);
    var last := CrawlOf(web, maxDepth, relevant, startUrls[n], 0, prev.1);
    if u in prev.1 {
      ScrapeOfComplete(web, maxDepth, relevant, startUrls[..n], visited, u);
    } else {
      CrawlOfComplete(web, maxDepth, relevant, startUrls[n], 0, prev.1, u);
    }
  }

  /** The crawler: its depth limit and the set of URLs it has visited, kept
      across start URLs. `fetched` logs every page request in order. */
  class DeepScraper {
    const maxDepth: int
    var visited: set<string>
    ghost var fetched: seq<Fetch>

    /** A URL is visited exactly when it was requested, it was requested
        once, and never deeper than the limit. */
    ghost predicate Valid()
      reads this
    {
      Logged(visited, fetched) && AtMost(fetched, 0, maxDepth)
    }

    constructor(maxDepth: int)
      ensures this.maxDepth == maxDepth && visited == {} && fetched == [] && Valid()
    {
      this.maxDepth := maxDepth;
      visited := {};
      fetched := [];
    }

    /** `self.visited_urls.add(url)` before the request for `url`. */
    method Visit(url: string, depth: int)
      requires Valid() && url !in visited && depth <= maxDepth
      modifies this
      ensures Valid() && visited == old(visited) + {url} && fetched == old(fetched) + [Fetch(url, depth)]
    {
      LogVisit(visited, fetched, url, depth);
      visited := visited + {url};
      fetched := fetched + [Fetch(url, depth)];
    }

    /** `deep_crawl(url, depth)` over the pages of `web`; a URL missing from
        `web` stands for a request that raised. */
    method DeepCrawl(web: map<string, Page>, url: string, depth: int) returns (found: seq<FileInfo>)
      requires Valid()
      modifies this
      ensures Valid() && old(fetched) <= fetched && old(visited) <= visited
      ensures depth > maxDepth || url in old(visited) ==> fetched == old(fetched) && found == []
      ensures depth <= maxDepth && url !in old(visited) ==>
                |old(fetched)| < |fetched| && fetched[|old(fetched)|] == Fetch(url, depth)
      ensures AtLeast(fetched, |old(fetched)|, depth) && AtLeast(fetched, |old(fetched)| + 1, depth + 1)
      ensures FromPages(found, web, OwnFile, fetched, |old(fetched)|)
      ensures (found, visited) == CrawlOf(web, maxDepth, Relevant, url, depth, old(visited))
      decreases maxDepth - depth, 1
    {
      if depth > maxDepth || url in visited {
        return [];
      }
      ghost var start := |fetched|;
      Visit(url, depth);
      assert fetched[start] == Fetch(url, depth);
      found := [];
      if url in web {
        var page := web[url];
        found := ScanAnchors(page.anchors);
        found := found + page.extra;
        assert found == PageFiles(page);
        FromPagesOwn(found, web, OwnFile, fetched, start);
        if depth < maxDepth {
          ghost var before := fetched;
          var sub := FollowAnchors(web, page, depth);
          FromPagesGrow(found, web, OwnFile, before, fetched, start);
          FromPagesJoin(found, sub, web, OwnFile, fetched, start, |before|);
          found := found + sub;
        }
      }
      AtLeastFrom(fetched, start, depth);
    }

    /** Step 2 of `deep_crawl` for a page at `depth`: crawl one level down
        from each of the first 20 anchors that is relevant, on the page's own
        host and not yet visited. */
    method FollowAnchors(web: map<string, Page>, page: Page, depth: int) returns (found: seq<FileInfo>)
      requires Valid() && depth < maxDepth
      modifies this
      ensures Valid() && old(fetched) <= fetched && old(visited) <= visited
      ensures AtLeast(fetched, |old(fetched)|, depth + 1)
      ensures FromPages(found, web, OwnFile, fetched, |old(fetched)|)
      ensures (found, visited) == FollowOf(web, maxDepth, Relevant, page, FollowLimit(page), depth, old(visited))
      decreases maxDepth - depth, 0
    {
      found := [];
      var limit := if |page.anchors| < MaxFollowed then |page.anchors| else MaxFollowed;
      for j := 0 to limit
        invariant Valid() && old(fetched) <= fetched && old(visited) <= visited
        invariant AtLeast(fetched, |old(fetched)|, depth + 1)
        invariant FromPages(found, web, OwnFile, fetched, |old(fetched)|)
        invariant (found, visited) == FollowOf(web, maxDepth, Relevant, page, j, depth, old(visited))
      {
        var a := page.anchors[j];
        ghost var next := FollowOf(web, maxDepth, Relevant, page, j + 1, depth, old(visited));
        if Relevant(a) && a.targetHost == page.host && a.target !in visited {
          ghost var before := fetched;
          ghost var crawl := CrawlOf(web, maxDepth, Relevant, a.target, depth + 1, visited);
          assert next == (found + crawl.0, crawl.1);
          var sub := DeepCrawl(web, a.target, depth + 1);
          AtLeastJoin(before, fetched, |old(fetched)|, depth + 1);
          FromPagesGrow(found, web, OwnFile, before, fetched, |old(fetched)|);
          FromPagesJoin(found, sub, web, OwnFile, fetched, |old(fetched)|, |before|);
          found := found + sub;
        } else {
          assert next == (found, visited);
        }
      }
    }

    /** `scrape_copernicus_resources` over `startUrls`: crawl each from depth
        0, keep the first resource per URL, count by extension and by
        source. */
    method ScrapeResources(web: map<string, Page>, startUrls: seq<string>) returns (summary: Summary)
      requires Valid()
      modifies this
      ensures Valid() && old(fetched) <= fetched
      ensures summary.totalFound == |summary.resources|
      ensures DistinctKeys(summary.resources, InfoUrl)
      ensures TallyOf(summary.resources, InfoExtension, summary.byExtension)
      ensures TallyOf(summary.resources, InfoSource, summary.bySource)
      ensures FromPages(summary.resources, web, OwnFile, fetched, |old(fetched)|)
      ensures var (all, after) := ScrapeOf(web, maxDepth, Relevant, startUrls, old(visited));
              summary.resources == FirstOfEach(all, InfoUrl, KeepAll) && visited == after
    {
      var all: seq<FileInfo> := [];
      for s := 0 to |startUrls|
        invariant Valid() && old(fetched) <= fetched
        invariant FromPages(all, web, OwnFile, fetched, |old(fetched)|)
        invariant (all, visited) == ScrapeOf(web, maxDepth, Relevant, startUrls[..s], old(visited))
      {
        assert startUrls[..s + 1][..s] == startUrls[..s];
        ghost var before := fetched;
        var found := DeepCrawl(web, startUrls[s], 0);
        FromPagesGrow(all, web, OwnFile, before, fetched, |old(fetched)|);
        FromPagesJoin(all, found, web, OwnFile, fetched, |old(fetched)|, |before|);
        all := all + found;
      }
      assert startUrls[..|startUrls|] == startUrls;
      var unique, idx := DedupByKey(all, InfoUrl, KeepAll);
      FromPagesPick(all, unique, web, OwnFile, fetched, |old(fetched)|);
      var byExtension := Tally(unique, InfoExtension);
      var bySource := Tally(unique, InfoSource);
      summary := Summary(|unique|, byExtension, bySource, unique);
    }
  }

  // ---- download_resources ----

  /** `re.sub(r'[^\w\-_\.]', '_', s)`, with `isWord` for the `\w` class. */
  function Sanitized(s: string, isWord: char -> bool): (r: string)
    ensures |r| == |s|
    ensures forall k :: 0 <= k < |r| ==> (isWord(r[k]) || r[k] == '-' || r[k] == '_' || r[k] == '.')
    ensures forall k :: 0 <= k < |r| ==> r[k] == s[k] || r[k] == '_'
    ensures forall k :: 0 <= k < |s| && (isWord(s[k]) || s[k] == '-' || s[k] == '_' || s[k] == '.') ==> r[k] == s[k]
  {
    if s == [] then []
    else [if isWord(s[0]) || s[0] == '-' || s[0] == '_' || s[0] == '.' then s[0] else '_'] + Sanitized(s[1..], isWord)
  }

  /** The file name `download_resources` writes resource number `i` (from
      1) to. */
  function SafeName(filename: string, extension: Option<string>, i: nat, isWord: char -> bool): string
  {
    var s := Sanitized(filename, isWord);
    var s := if s == [] then "file_" + NatToString(i) else s;
    if extension.Some? && !EndsWith(s, extension.value) then s + extension.value else s
  }

  /** The safe name is never empty, starts with the sanitized name (or
      `file_<i>` for an empty name) and ends with the extension, which is
      appended exactly when that name does not already end with it. */
  lemma SafeNameShape(filename: string, extension: Option<string>, i: nat, isWord: char -> bool)
    ensures var r := SafeName(filename, extension, i, isWord);
            r != [] &&
            (filename != [] ==> Sanitized(filename, isWord) <= r) &&
            (filename == [] ==> "file_" + NatToString(i) <= r) &&
            (extension.Some? ==> EndsWith(r, extension.value))
    ensures var s := Sanitized(filename, isWord);
            var base := if filename == [] then "file_" + NatToString(i) else s;
            var r := SafeName(filename, extension, i, isWord);
            (extension.None? ==> r == base) &&
            (extension.Some? && EndsWith(base, extension.value) ==> r == base) &&
            (extension.Some? && !EndsWith(base, extension.value) ==> r == base + extension.value)
  {
    var s := Sanitized(filename, isWord);
    var s' := if s == [] then "file_" + NatToString(i) else s;
    if extension.Some? && !EndsWith(s', extension.value) {
      assert (s' + extension.value)[|s'|..] == extension.value;
    }
  }

  datatype Status = Skipped | Succeeded | Failed

  /** The record `download_resources` appends for one resource. */
  datatype Outcome = Outcome(resource: FileInfo, status: Status, filepath: Option<string>)

  /** The results for `resources[k..]` when the output directory holds
      `present`: a name already present is skipped without a request, a
      request that succeeds writes its file, one that fails is recorded. */
  function DownloadsFrom(resources: seq<FileInfo>, k: nat, present: set<string>, name: (FileInfo, nat) -> string,
                         fetchOk: string -> bool): seq<Outcome>
    requires k <= |resources|
    decreases |resources| - k
  {
    if k == |resources| then []
    else
      var res := resources[k];
      var file := name(res, k + 1);
      if file in present then
        [Outcome(res, Skipped, Some(file))] + DownloadsFrom(resources, k + 1, present, name, fetchOk)
      else if fetchOk(res.url) then
        [Outcome(res, Succeeded, Some(file))] + DownloadsFrom(resources, k + 1, present + {file}, name, fetchOk)
      else
        [Outcome(res, Failed, None)] + DownloadsFrom(resources, k + 1, present, name, fetchOk)
  }

  /** The name resource `a` is written to, numbered from 1. */
  function NameOf(resources: seq<FileInfo>, a: nat, name: (FileInfo, nat) -> string): string
    requires a < |resources|
  {
    name(resources[a], a + 1)
  }

  /** One result per resource from position `k` on, in order; a result
      names its file unless it failed, and a success had its request
      succeed. */
  predicate OnePerResource(r: seq<Outcome>, resources: seq<FileInfo>, k: nat, name: (FileInfo, nat) -> string,
                           fetchOk: string -> bool)
    requires k <= |resources|
  {
    |r| == |resources| - k &&
    forall j :: 0 <= j < |r| ==>
      r[j].resource == resources[k + j] &&
      (r[j].status != Failed <==> r[j].filepath == Some(NameOf(resources, k + j, name))) &&
      (r[j].status == Succeeded ==> fetchOk(resources[k + j].url))
  }

  lemma {:induction false} DownloadsOnePerResource(resources: seq<FileInfo>, k: nat, present: set<string>,
                                                   name: (FileInfo, nat) -> string, fetchOk: string -> bool)
    requires k <= |resources|
    ensures OnePerResource(DownloadsFrom(resources, k, present, name, fetchOk), resources, k, name, fetchOk)
    decreases |resources| - k
  {
    if k < |resources| {
      var res := resources[k];
      var file := NameOf(resources, k, name);
      var next := if file !in present && fetchOk(res.url) then present + {file} else present;
      DownloadsOnePerResource(resources, k + 1, next, name, fetchOk);
      var rest := DownloadsFrom(resources, k + 1, next, name, fetchOk);
      var o := if file in present then Outcome(res, Skipped, Some(file))
               else if fetchOk(res.url) then Outcome(res, Succeeded, Some(file))
               else Outcome(res, Failed, None);
      assert DownloadsFrom(resources, k, present, name, fetchOk) == [o] + rest;
      forall j | 1 <= j < |[o] + rest|
        ensures ([o] + rest)[j] == rest[j - 1] && k + j == (k + 1) + (j - 1)
      {
      }
    }
  }

  /** Each result from position `k` on is a success or a failure, a success
      exactly when the request for its resource succeeds. */
  predicate NoneSkipped(r: seq<Outcome>, resources: seq<FileInfo>, k: nat, fetchOk: string -> bool)
  {
    forall j :: 0 <= j < |r| && k + j < |resources| ==>
      r[j].status != Skipped && (r[j].status == Succeeded <==> fetchOk(resources[k + j].url))
  }

  /** With pairwise different file names, none of them present, nothing is
      skipped and a resource succeeds exactly when its request does. */
  lemma {:induction false} DownloadsFresh(resources: seq<FileInfo>, k: nat, present: set<string>,
                                          name: (FileInfo, nat) -> string, fetchOk: string -> bool)
    requires k <= |resources|
    requires forall a, b :: k <= a < b < |resources| ==> NameOf(resources, a, name) != NameOf(resources, b, name)
    requires forall a :: k <= a < |resources| ==> NameOf(resources, a, name) !in present
    ensures NoneSkipped(DownloadsFrom(resources, k, present, name, fetchOk), resources, k, fetchOk)
    decreases |resources| - k
  {
    if k < |resources| {
      var res := resources[k];
      var file := NameOf(resources, k, name);
      var next := if fetchOk(res.url) then present + {file} else present;
      assert forall a :: k + 1 <= a < |resources| ==> NameOf(resources, a, name) !in next;
      DownloadsFresh(resources, k + 1, next, name, fetchOk);
      var rest := DownloadsFrom(resources, k + 1, next, name, fetchOk);
      var o := if fetchOk(res.url) then Outcome(res, Succeeded, Some(file)) else Outcome(res, Failed, None);
      assert DownloadsFrom(resources, k, present, name, fetchOk) == [o] + rest;
      forall j | 1 <= j < |[o] + rest| && k + j < |resources|
        ensures ([o] + rest)[j].status != Skipped && (([o] + rest)[j].status == Succeeded <==> fetchOk(resources[k + j].url))
      {
        assert ([o] + rest)[j] == rest[j - 1];
        assert resources[k + j] == resources[(k + 1) + (j - 1)];
      }
    }
  }

  /** An earlier resource among the first `j` results was written under
      `file`. */
  ghost predicate WrittenBefore(r: seq<Outcome>, resources: seq<FileInfo>, k: nat, j: nat, file: string,
                                name: (FileInfo, nat) -> string)
    requires |r| == |resources| - k && j <= |r|
  {
    exists j' :: 0 <= j' < j && r[j'].status == Succeeded && NameOf(resources, k + j', name) == file
  }

  /** A resource is skipped exactly when its name was in the directory at
      the start or was written by an earlier success; any other resource is
      requested, and succeeds exactly when its request does. */
  lemma {:induction false} DownloadsSkipOnly(resources: seq<FileInfo>, k: nat, present: set<string>,
                                             name: (FileInfo, nat) -> string, fetchOk: string -> bool)
    requires k <= |resources|
    ensures var r := DownloadsFrom(resources, k, present, name, fetchOk);
            |r| == |resources| - k &&
            forall j :: 0 <= j < |r| ==>
              (r[j].status == Skipped <==>
                 NameOf(resources, k + j, name) in present ||
                 WrittenBefore(r, resources, k, j, NameOf(resources, k + j, name), name)) &&
              (r[j].status == Succeeded <==>
                 r[j].status != Skipped && fetchOk(resources[k + j].url))
  {
    DownloadsOnePerResource(resources, k, present, name, fetchOk);
    var r := DownloadsFrom(resources, k, present, name, fetchOk);
    forall j | 0 <= j < |r|
      ensures r[j].status == Skipped <==>
                NameOf(resources, k + j, name) in present ||
                WrittenBefore(r, resources, k, j, NameOf(resources, k + j, name), name)
      ensures r[j].status == Succeeded <==> r[j].status != Skipped && fetchOk(resources[k + j].url)
    {
      SkipAt(resources, k, present, name, fetchOk, j);
      SucceededAt(resources, k, present, name, fetchOk, j);
    }
  }

  /** A result that is not a skip is a success exactly when its request
      succeeds. */
  lemma {:induction false} SucceededAt(resources: seq<FileInfo>, k: nat, present: set<string>,
                                       name: (FileInfo, nat) -> string, fetchOk: string -> bool, j: nat)
    requires k + j < |resources|
    ensures var r := DownloadsFrom(resources, k, present, name, fetchOk);
            |r| == |resources| - k &&
            (r[j].status == Succeeded <==> r[j].status != Skipped && fetchOk(resources[k + j].url))
    decreases j
  {
    var file := NameOf(resources, k, name);
    var next := if file !in present && fetchOk(resources[k].url) then present + {file} else present;
    DownloadsStep(resources, k, present, name, fetchOk);
    if j > 0 {
      SucceededAt(resources, k + 1, next, name, fetchOk, j - 1);
      assert resources[k + j] == resources[(k + 1) + (j - 1)];
    }
  }

  /** The result of the `j`-th resource from `k`, as `DownloadsSkipOnly`
      states it. */
  lemma {:induction false} SkipAt(resources: seq<FileInfo>, k: nat, present: set<string>,
                                  name: (FileInfo, nat) -> string, fetchOk: string -> bool, j: nat)
    requires k + j < |resources|
    ensures var r := DownloadsFrom(resources, k, present, name, fetchOk);
            |r| == |resources| - k &&
            (r[j].status == Skipped <==>
               NameOf(resources, k + j, name) in present ||
               WrittenBefore(r, resources, k, j, NameOf(resources, k + j, name), name))
    decreases j
  {
    var file := NameOf(resources, k, name);
    var next := if file !in present && fetchOk(resources[k].url) then present + {file} else present;
    DownloadsStep(resources, k, present, name, fetchOk);
    var r := DownloadsFrom(resources, k, present, name, fetchOk);
    var rest := DownloadsFrom(resources, k + 1, next, name, fetchOk);
    var target := NameOf(resources, k + j, name);
    if j == 0 {
      assert !WrittenBefore(r, resources, k, j, target, name);
    } else {
      SkipAt(resources, k + 1, next, name, fetchOk, j - 1);
      assert r[j] == rest[j - 1] && resources[k + j] == resources[(k + 1) + (j - 1)];
      assert NameOf(resources, k + j, name) == NameOf(resources, (k + 1) + (j - 1), name);
      WrittenBeforeShift(r, rest, resources, k, j, target, name, next, present);
    }
  }

  /** `DownloadsFrom` from `k` is one result for resource `k`, then the
      results from `k + 1` with its name added if it was written. */
  lemma DownloadsStep(resources: seq<FileInfo>, k: nat, present: set<string>,
                      name: (FileInfo, nat) -> string, fetchOk: string -> bool)
    requires k < |resources|
    ensures var file := NameOf(resources, k, name);
            var next := if file !in present && fetchOk(resources[k].url) then present + {file} else present;
            var r := DownloadsFrom(resources, k, present, name, fetchOk);
            |r| == |resources| - k && r[1..] == DownloadsFrom(resources, k + 1, next, name, fetchOk) &&
            r[0].status == (if file in present then Skipped else if fetchOk(resources[k].url) then Succeeded else Failed)
  {
    DownloadsLength(resources, k, present, name, fetchOk);
  }

  lemma {:induction false} DownloadsLength(resources: seq<FileInfo>, k: nat, present: set<string>,
                                           name: (FileInfo, nat) -> string, fetchOk: string -> bool)
    requires k <= |resources|
    ensures |DownloadsFrom(resources, k, present, name, fetchOk)| == |resources| - k
    decreases |resources| - k
  {
    if k < |resources| {
      var file := NameOf(resources, k, name);
      DownloadsLength(resources, k + 1, present, name, fetchOk);
      DownloadsLength(resources, k + 1, present + {file}, name, fetchOk);
    }
  }

  /** How `WrittenBefore` moves past the first resource. */
  lemma WrittenBeforeShift(r: seq<Outcome>, rest: seq<Outcome>, resources: seq<FileInfo>, k: nat, j: nat,
                           file: string, name: (FileInfo, nat) -> string, next: set<string>, present: set<string>)
    requires k < |resources| && |r| == |resources| - k && 0 < j < |r| && r[1..] == rest
    requires next == if r[0].status == Succeeded then present + {NameOf(resources, k, name)} else present
    ensures (file in next || WrittenBefore(rest, resources, k + 1, j - 1, file, name)) <==>
            (file in present || WrittenBefore(r, resources, k, j, file, name))
  {
    if WrittenBefore(rest, resources, k + 1, j - 1, file, name) {
      var j'' :| 0 <= j'' < j - 1 && rest[j''].status == Succeeded && NameOf(resources, k + 1 + j'', name) == file;
      assert r[j'' + 1] == rest[j''] && k + 1 + j'' == k + (j'' + 1);
    }
    if WrittenBefore(r, resources, k, j, file, name) {
      var j' :| 0 <= j' < j && r[j'].status == Succeeded && NameOf(resources, k + j', name) == file;
      if j' > 0 {
        assert rest[j' - 1] == r[j'] && (k + 1) + (j' - 1) == k + j';
      }
    }
  }

  /** The naming of `download_resources`: `SafeName` with `isWord` for `\w`. */
  function SafeNamer(isWord: char -> bool): (FileInfo, nat) -> string
  {
    (res: FileInfo, i: nat) => SafeName(res.filename, res.extension, i, isWord)
  }

  /** `download_resources(resources)`: `existing` holds the names already in
      the output directory and `fetchOk` the outcome of each request. */
  method DownloadResources(resources: seq<FileInfo>, existing: set<string>, isWord: char -> bool,
                           fetchOk: string -> bool)
    returns (results: seq<Outcome>)
    ensures results == DownloadsFrom(resources, 0, existing, SafeNamer(isWord), fetchOk)
  {
    results := [];
    var present := existing;
    for k := 0 to |resources|
      invariant results + DownloadsFrom(resources, k, present, SafeNamer(isWord), fetchOk) ==
                DownloadsFrom(resources, 0, existing, SafeNamer(isWord), fetchOk)
    {
      var res := resources[k];
      var safe := SafeName(res.filename, res.extension, k + 1, isWord);
      ghost var rest := DownloadsFrom(resources, k + 1, present, SafeNamer(isWord), fetchOk);
      if safe in present {
        assert results + ([Outcome(res, Skipped, Some(safe))] + rest) == (results + [Outcome(res, Skipped, Some(safe))]) + rest;
        results := results + [Outcome(res, Skipped, Some(safe))];
      } else if fetchOk(res.url) {
        ghost var rest' := DownloadsFrom(resources, k + 1, present + {safe}, SafeNamer(isWord), fetchOk);
        assert results + ([Outcome(res, Succeeded, Some(safe))] + rest') == (results + [Outcome(res, Succeeded, Some(safe))]) + rest';
        results := results + [Outcome(res, Succeeded, Some(safe))];
        present := present + {safe};
      } else {
        assert results + ([Outcome(res, Failed, None)] + rest) == (results + [Outcome(res, Failed, None)]) + rest;
        results := results + [Outcome(res, Failed, None)];
      }
    }
  }
}
