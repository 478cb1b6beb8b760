/** The multi-level scraper: a crawl that follows download buttons, a few
    tutorial sub-pages and external platform links down to the files
    themselves, rewriting Mercator Ocean share links into their download
    URLs, and a downloader that fetches the first few of those. */
module Multilevel {
  import opened Wrappers
  import opened Text
  import opened Collect
  import opened Crawl

  /** The kinds of link the crawl records. */
  datatype LinkKind = Mercator | External

  /** A found resource: a direct file link with its file name and text, or a
      platform link with the page it was found on. */
  datatype Resource =
    | DirectFile(url: string, filename: string, text: string)
    | Linked(url: string, kind: LinkKind, sourcePage: string)

  function UrlOf(r: Resource): string
  {
    r.url
  }

  /** The resource's `type` field. */
  function TypeOf(r: Resource): string
  {
    match r
    case DirectFile(_, _, _) => "direct_file"
    case Linked(_, Mercator, _) => "mercator"
    case Linked(_, External, _) => "external"
  }

  /** An `<a href>` of a page: its href (empty when absent), its stripped
      text, the absolute URL `urljoin` makes of it, and that URL's network
      location. */
  datatype Anchor = Anchor(href: string, text: string, target: string, targetHost: string)

  /** An `<a>` or `<button>` the two download-button searches return: its
      href (empty when absent) and the absolute URL made of it. */
  datatype Button = Button(href: string, target: string)

  /** A page that answered: its network location, its anchors in document
      order, and the elements the download-text and download-class
      searches return, in that order. */
  datatype Page = Page(host: string, anchors: seq<Anchor>, buttons: seq<Button>)

  // ---- _find_direct_downloads ----

  /** The file patterns, searched case-insensitively in the href. */
  const FilePatterns: seq<string> := [".ipynb", ".zip", ".tar", ".gz", ".pdf", ".nc"]

  const MaxText: nat := 50

  /** The entry a matching anchor contributes. */
  function DirectOf(a: Anchor): Resource
  {
    DirectFile(a.target, AfterLast(a.href, '/'), Take(a.text, MaxText))
  }

  /** The anchor's lower-cased href holds `pattern`. */
  predicate Matches(a: Anchor, pattern: string)
  {
    Contains(Lower(a.href), pattern)
  }

  /** `_find_direct_downloads`: one pass per pattern over the anchors, the
      passes concatenated, so that an anchor matching two patterns
      (`.tar.gz`) is listed twice. */
  function DirectDownloads(anchors: seq<Anchor>): seq<Resource>
  {
    PickEach(anchors, FilePatterns, Matches, DirectOf)
  }

  /** A direct download is exactly the entry of an anchor whose lower-cased
      href holds one of the file patterns. */
  lemma DirectDownloadsExactly(anchors: seq<Anchor>, r: Resource)
    ensures r in DirectDownloads(anchors) <==>
              exists i :: 0 <= i < |anchors| && PassesAny(anchors[i], FilePatterns, Matches) && DirectOf(anchors[i]) == r
  {
    PickEachMembers(anchors, FilePatterns, Matches, DirectOf, r);
  }

  // ---- _find_download_buttons, _find_tutorial_subpages, _find_external_platforms ----

  /** `_find_download_buttons`: the targets of the elements with an href,
      leaving out visited URLs; as a set, each target once. */
  function DownloadButtons(buttons: seq<Button>, visited: set<string>): set<string>
  {
    if buttons == [] then {}
    else
      var b := buttons[0];
      (if b.href != [] && b.target !in visited then {b.target} else {}) + DownloadButtons(buttons[1..], visited)
  }

  /** An element with an href contributes its target when it is not
      visited, and nothing else is listed. */
  lemma {:induction false} DownloadButtonsExactly(buttons: seq<Button>, visited: set<string>)
    ensures DownloadButtons(buttons, visited) !! visited
    ensures forall i :: 0 <= i < |buttons| && buttons[i].href != [] && buttons[i].target !in visited ==>
              buttons[i].target in DownloadButtons(buttons, visited)
    ensures forall u :: u in DownloadButtons(buttons, visited) ==>
              exists i :: 0 <= i < |buttons| && buttons[i].href != [] && buttons[i].target == u
    decreases |buttons|
  {
    if buttons != [] {
      DownloadButtonsExactly(buttons[1..], visited);
      forall u | u in DownloadButtons(buttons, visited) && u !in DownloadButtons(buttons[1..], visited)
        ensures buttons[0].href != [] && buttons[0].target == u
      {
      }
      forall u | u in DownloadButtons(buttons[1..], visited)
        ensures exists i :: 0 <= i < |buttons| && buttons[i].href != [] && buttons[i].target == u
      {
        var j :| 0 <= j < |buttons[1..]| && buttons[1..][j].href != [] && buttons[1..][j].target == u;
        assert buttons[j + 1] == buttons[1..][j];
      }
      forall i | 0 < i < |buttons| && buttons[i].href != [] && buttons[i].target !in visited
        ensures buttons[i].target in DownloadButtons(buttons, visited)
      {
        assert buttons[1..][i - 1] == buttons[i];
      }
    }
  }

  const SubpageKeywords: seq<string> := ["tutorial", "training", "exercise", "example", "notebook", "data"]

  /** The anchor names a sub-page of a page at `host`: a keyword in its
      lower-cased href, an href that is not empty and not a `#` fragment,
      and a target on the same network location. */
  predicate IsSubpage(a: Anchor, host: string)
  {
    ContainsAny(Lower(a.href), SubpageKeywords) && a.href != [] && a.href[0] != '#' && a.targetHost == host
  }

  /** `_find_tutorial_subpages`: as a set, each target once. */
  function TutorialSubpages(anchors: seq<Anchor>, host: string): set<string>
  {
    if anchors == [] then {}
    else (if IsSubpage(anchors[0], host) then {anchors[0].target} else {}) + TutorialSubpages(anchors[1..], host)
  }

  /** Exactly the targets of the sub-page anchors are listed. */
  lemma {:induction false} TutorialSubpagesExactly(anchors: seq<Anchor>, host: string)
    ensures forall u :: u in TutorialSubpages(anchors, host) ==>
              exists i :: 0 <= i < |anchors| && anchors[i].target == u && IsSubpage(anchors[i], host)
    ensures forall i :: 0 <= i < |anchors| && IsSubpage(anchors[i], host) ==>
              anchors[i].target in TutorialSubpages(anchors, host)
    decreases |anchors|
  {
    if anchors != [] {
      TutorialSubpagesExactly(anchors[1..], host);
      forall u | u in TutorialSubpages(anchors[1..], host)
        ensures exists i :: 0 <= i < |anchors| && anchors[i].target == u && IsSubpage(anchors[i], host)
      {
        var j :| 0 <= j < |anchors[1..]| && anchors[1..][j].target == u && IsSubpage(anchors[1..][j], host);
        assert anchors[j + 1] == anchors[1..][j];
      }
      forall i | 0 < i < |anchors| && IsSubpage(anchors[i], host)
        ensures anchors[i].target in TutorialSubpages(anchors, host)
      {
        assert anchors[1..][i - 1] == anchors[i];
      }
    }
  }

  const MercatorHost: string := "atlas.mercator-ocean.fr"

  const Platforms: seq<string> :=
    [MercatorHost, "github.com", "gitlab.com", "zenodo.org", "drive.google.com", "dropbox.com"]

  /** `_find_external_platforms`: the raw hrefs naming a known platform,
      matched case-insensitively; as a set, each href once. */
  function ExternalPlatforms(anchors: seq<Anchor>): set<string>
  {
    if anchors == [] then {}
    else
      var h := anchors[0].href;
      (if h != [] && ContainsAny(Lower(h), Platforms) then {h} else {}) + ExternalPlatforms(anchors[1..])
  }

  /** Exactly the non-empty hrefs naming a platform are listed. */
  lemma {:induction false} ExternalPlatformsExactly(anchors: seq<Anchor>)
    ensures forall e :: e in ExternalPlatforms(anchors) ==> e != [] && ContainsAny(Lower(e), Platforms)
    ensures forall i :: 0 <= i < |anchors| && anchors[i].href != [] && ContainsAny(Lower(anchors[i].href), Platforms) ==>
              anchors[i].href in ExternalPlatforms(anchors)
    decreases |anchors|
  {
    if anchors != [] {
      ExternalPlatformsExactly(anchors[1..]);
      forall i | 0 < i < |anchors| && anchors[i].href != [] && ContainsAny(Lower(anchors[i].href), Platforms)
        ensures anchors[i].href in ExternalPlatforms(anchors)
      {
        assert anchors[1..][i - 1] == anchors[i];
      }
    }
  }

  // ---- the Mercator rewrite ----

  const DownloadSuffix: string := "/download"

  /** What an external link found on `page` adds: a Mercator Ocean link
      (matched case-sensitively) gets `/download` appended, unless it ends in
      it already, when it adds nothing; any other link is kept as it is. */
  function ExternalResource(ext: string, page: string): Option<Resource>
  {
    if Contains(ext, MercatorHost) then
      if EndsWith(ext, DownloadSuffix) then None else Some(Linked(ext + DownloadSuffix, Mercator, page))
    else Some(Linked(ext, External, page))
  }

  /** The share-id slice `ext.split('/')[-2]` raises for a Mercator link
      that needs the rewrite but has no `/` at all; that ends the page. */
  predicate ShareIdFails(ext: string)
  {
    Contains(ext, MercatorHost) && !EndsWith(ext, DownloadSuffix) && !Contains(ext, "/s/") && Avoids(ext, '/')
  }

  /** The rewrite gives a download URL that would not be rewritten again,
      and whose piece before the last `/` is the last piece of the link. */
  lemma MercatorRewrite(ext: string, page: string)
    requires Contains(ext, MercatorHost) && !EndsWith(ext, DownloadSuffix)
    ensures var r := ExternalResource(ext, page).value;
            r.kind == Mercator && EndsWith(r.url, DownloadSuffix) && Contains(r.url, MercatorHost) &&
            ExternalResource(r.url, page) == None &&
            PieceBeforeLast(r.url, '/') == Some(AfterLast(ext, '/'))
  {
    ContainsExtend(ext, DownloadSuffix, MercatorHost);
    assert ext + DownloadSuffix == ext + ['/'] + "download";
    PieceBeforeLastOf(ext, "download", '/');
  }

  /** Exactly the Mercator links that already end in `/download` add
      nothing, and the others keep their URL. */
  lemma ExternalResourceKeeps(ext: string, page: string)
    ensures ExternalResource(ext, page) == None <==> Contains(ext, MercatorHost) && EndsWith(ext, DownloadSuffix)
    ensures !Contains(ext, MercatorHost) ==> ExternalResource(ext, page) == Some(Linked(ext, External, page))
  {
  }

  /** Two different links never add the same URL. */
  lemma ExternalUrlsDistinct(e1: string, e2: string, page: string)
    requires e1 != e2 && ExternalResource(e1, page).Some? && ExternalResource(e2, page).Some?
    ensures ExternalResource(e1, page).value.url != ExternalResource(e2, page).value.url
  {
    var m1, m2 := Contains(e1, MercatorHost), Contains(e2, MercatorHost);
    if m1 && m2 {
      assert (e1 + DownloadSuffix)[..|e1|] == e1;
      assert (e2 + DownloadSuffix)[..|e2|] == e2;
    } else if m1 && !m2 {
      ContainsExtend(e1, DownloadSuffix, MercatorHost);
    } else if m2 && !m1 {
      ContainsExtend(e2, DownloadSuffix, MercatorHost);
    }
  }

  /** Everything the external links of a page can add. */
  function PlatformResources(exts: set<string>, page: string): set<Resource>
  {
    set e | e in exts && ExternalResource(e, page).Some? :: ExternalResource(e, page).value
  }

  /** `q` is how Python lists the set `s` (`list(set(...))`): each element
      once, in an order the model does not fix. */
  ghost predicate Lists(q: seq<string>, s: set<string>)
  {
    (forall u :: u in q <==> u in s) && forall i, j :: 0 <= i < j < |q| ==> q[i] != q[j]
  }

  /** The listing `order` gives of `s`. */
  ghost function ListingOf(order: set<string> -> seq<string>, s: set<string>): seq<string>
  {
    order(s)
  }

  /** `order` gives such a listing of every set; a proof that needs it for
      one set names that set's `ListingOf`. */
  ghost predicate SetOrder(order: set<string> -> seq<string>)
  {
    forall s {:trigger ListingOf(order, s)} :: Lists(order(s), s)
  }

  /** Step 4 of `_crawl_level` over the external links in the order they
      are listed: what each adds, up to a link whose `share_id` slice
      raises, which ends the page. */
  function ExternalsOf(exts: seq<string>, page: string): seq<Resource>
  {
    if exts == [] || ShareIdFails(exts[0]) then []
    else
      var r := ExternalResource(exts[0], page);
      (if r.Some? then [r.value] else []) + ExternalsOf(exts[1..], page)
  }

  /** Every added resource is what one of the links adds. */
  lemma {:induction false} ExternalsOfFrom(exts: seq<string>, links: set<string>, page: string)
    requires forall e :: e in exts ==> e in links
    ensures forall x :: x in ExternalsOf(exts, page) ==> x in PlatformResources(links, page)
    decreases |exts|
  {
    if exts != [] && !ShareIdFails(exts[0]) {
      ExternalsOfFrom(exts[1..], links, page);
    }
  }

  /** Links listed once add resources with distinct URLs. */
  lemma {:induction false} ExternalsOfDistinct(exts: seq<string>, page: string)
    requires forall i, j :: 0 <= i < j < |exts| ==> exts[i] != exts[j]
    ensures DistinctKeys(ExternalsOf(exts, page), UrlOf)
    decreases |exts|
  {
    if exts != [] && !ShareIdFails(exts[0]) {
      var rest := exts[1..];
      ExternalsOfDistinct(rest, page);
      var tail := ExternalsOf(rest, page);
      var r := ExternalResource(exts[0], page);
      if r.Some? {
        var links := set e | e in rest;
        ExternalsOfFrom(rest, links, page);
        forall k | 0 <= k < |tail|
          ensures tail[k].url != r.value.url
        {
          assert tail[k] in PlatformResources(links, page);
          var e :| e in links && ExternalResource(e, page).Some? && ExternalResource(e, page).value == tail[k];
          ExternalUrlsDistinct(exts[0], e, page);
        }
        var all := [r.value] + tail;
        forall a, b | 0 <= a < b < |all|
          ensures all[a].url != all[b].url
        {
          if a > 0 {
            assert all[a] == tail[a - 1] && all[b] == tail[b - 1];
          } else {
            assert all[b] == tail[b - 1];
          }
        }
      }
    }
  }

  /** When no `share_id` slice raises, every resource a listed link can add is
      added. */
  lemma {:induction false} ExternalsOfAll(exts: seq<string>, links: set<string>, page: string)
    requires Lists(exts, links) && forall e :: e in exts ==> !ShareIdFails(e)
    ensures forall x :: x in PlatformResources(links, page) ==> x in ExternalsOf(exts, page)
    decreases |exts|
  {
    if exts != [] {
      var rest := exts[1..];
      var links' := links - {exts[0]};
      assert Lists(rest, links') by {
        forall u | u in links'
          ensures u in rest
        {
          var j :| 0 <= j < |exts| && exts[j] == u;
          assert rest[j - 1] == u;
        }
      }
      ExternalsOfAll(rest, links', page);
      forall x | x in PlatformResources(links, page)
        ensures x in ExternalsOf(exts, page)
      {
        var e :| e in links && ExternalResource(e, page).Some? && ExternalResource(e, page).value == x;
        if e != exts[0] {
          assert x in PlatformResources(links', page);
        }
      }
    }
  }

  /** Step 4 of `_crawl_level`: the external links in the order they are
      listed. A link whose `share_id` slice raises ends the loop, keeping
      what was added before it. */
  method AddExternal(exts: seq<string>, page: string) returns (added: seq<Resource>)
    ensures added == ExternalsOf(exts, page)
  {
    added := [];
    var i := 0;
    while i < |exts|
      invariant i <= |exts|
      invariant added + ExternalsOf(exts[i..], page) == ExternalsOf(exts, page)
    {
      var e := exts[i];
      ExternalsOfAt(exts, i, page);
      if ShareIdFails(e) {
        break;
      }
      var r := ExternalResource(e, page);
      if r.Some? {
        assert added + ExternalsOf(exts[i..], page) == (added + [r.value]) + ExternalsOf(exts[i + 1..], page);
        added := added + [r.value];
      }
      i := i + 1;
    }
    if i == |exts| {
      assert exts[i..] == [];
    }
  }

  /** One step of `ExternalsOf` from position `i`. */
  lemma ExternalsOfAt(exts: seq<string>, i: nat, page: string)
    requires i < |exts|
    ensures ShareIdFails(exts[i]) ==> ExternalsOf(exts[i..], page) == []
    ensures !ShareIdFails(exts[i]) ==>
              var r := ExternalResource(exts[i], page);
              ExternalsOf(exts[i..], page) == (if r.Some? then [r.value] else []) + ExternalsOf(exts[i + 1..], page)
  {
    assert exts[i..][1..] == exts[i + 1..];
  }

  // ---- _crawl_level ----

  /** The page at `url` yields `x` itself: a direct download, or what one of
      its external links adds with the page as source. */
  predicate OwnResource(url: string, page: Page, x: Resource)
  {
    x in DirectDownloads(page.anchors) || x in PlatformResources(ExternalPlatforms(page.anchors), url)
  }

  /** At most this many sub-pages are followed per page. */
  const MaxSubpages: nat := 5

  /** The URLs `test_specific_tutorials` starts from, each with depth limit 2. */
  const TestUrls: seq<string> := [
    "https://marine.copernicus.eu/services/user-learning-services/tutorials",
    "https://marine.copernicus.eu/services/user-learning-services/arctic-ocean-training-2022-discover-copernicus-marine-service",
    "https://atlas.mercator-ocean.fr/s/ZqtwdLNzoQH55JE"]

  const TestDepth: int := 2

  /** What the finders of `_crawl_level` give the page at `url` for steps
      2 to 4: the download-button targets, the sub-pages taken and the
      resources its external links add. */
  datatype Finds = Finds(buttons: seq<string>, subpages: seq<string>, externals: seq<Resource>)

  /** The finders' results for `page`, reached at `depth` with `visited`
      already marked; `order` lists the sets they return. */
  function FindsOf(order: set<string> -> seq<string>, page: Page, url: string, depth: int, maxDepth: int,
                   visited: set<string>): Finds
  {
    Finds(order(DownloadButtons(page.buttons, visited)), SubpagesTaken(order, page, depth, maxDepth),
          ExternalsOf(order(ExternalPlatforms(page.anchors)), url))
  }

  /** The finders' results by url, depth and visited set. The crawl below is
      defined for any such plan; the scraper follows `PlanOf`. */
  type Plan = (string, int, set<string>) -> Finds

  /** The plan the scraper follows on `web`. */
  ghost function PlanOf(web: map<string, Page>, order: set<string> -> seq<string>, maxDepth: int): Plan
  {
    (url, depth, visited) =>
      if url in web then FindsOf(order, web[url], url, depth, maxDepth, visited) else Finds([], [], [])
  }

  /** What `plan` gives at one point. */
  ghost function PlanAt(plan: Plan, url: string, depth: int, visited: set<string>): Finds
  {
    plan(url, depth, visited)
  }

  /** `plan` gives the finders' results on every page of `web`; a proof that
      needs it at one point names that point's `PlanAt`. */
  ghost predicate Follows(web: map<string, Page>, order: set<string> -> seq<string>, maxDepth: int, plan: Plan)
  {
    forall url, depth, visited {:trigger PlanAt(plan, url, depth, visited)} ::
      url in web ==> plan(url, depth, visited) == FindsOf(order, web[url], url, depth, maxDepth, visited)
  }

  /** The scraper's plan gives the finders' results. */
  lemma PlanOfFollows(web: map<string, Page>, order: set<string> -> seq<string>, maxDepth: int)
    ensures Follows(web, order, maxDepth, PlanOf(web, order, maxDepth))
  {
  }

  /** What `_crawl_level(url, depth, max_depth)` returns, and the visited
      set after it, from the visited set before it, when the page finders
      give `plan`. */
  function LevelOf(web: map<string, Page>, plan: Plan, url: string, depth: int, maxDepth: int,
                   visited: set<string>): (r: (seq<Resource>, set<string>))
    ensures visited <= r.1
    ensures depth > maxDepth || url in visited ==> r == ([], visited)
    ensures depth <= maxDepth && url !in visited ==> url in r.1
    decreases maxDepth - depth, 2, 0
  {
    if depth > maxDepth || url in visited then ([], visited)
    else if url !in web then ([], visited + {url})
    else PageOf(web, plan, url, depth, maxDepth, visited + {url})
  }

  /** A crawl that requests a page that answers returns that page's direct
      downloads first. */
  lemma LevelOfOwn(web: map<string, Page>, plan: Plan, url: string, depth: int, maxDepth: int, visited: set<string>)
    requires depth <= maxDepth && url !in visited && url in web
    ensures DirectDownloads(web[url].anchors) <= LevelOf(web, plan, url, depth, maxDepth, visited).0
  {
  }

  /** The sub-pages `_crawl_level` takes from a page at `depth`: the first
      five listed, and none at the depth limit. */
  function SubpagesTaken(order: set<string> -> seq<string>, page: Page, depth: int, maxDepth: int): (r: seq<string>)
    ensures var listed := order(TutorialSubpages(page.anchors, page.host));
            depth < maxDepth ==> r <= listed && |r| == if |listed| < MaxSubpages then |listed| else MaxSubpages
    ensures depth >= maxDepth ==> r == []
  {
    if depth < maxDepth then SliceTo(order(TutorialSubpages(page.anchors, page.host)), MaxSubpages) else []
  }

  /** The body of `_crawl_level` for the page at `url`, already marked
      visited: its direct downloads, then what its download buttons and its
      sub-pages lead to, then its external platform links. */
  function PageOf(web: map<string, Page>, plan: Plan, url: string, depth: int, maxDepth: int,
                  visited: set<string>): (r: (seq<Resource>, set<string>))
    requires url in web && depth <= maxDepth
    ensures visited <= r.1
    decreases maxDepth - depth, 1, 0
  {
    var f := plan(url, depth, visited);
    var b := LinksOf(web, plan, f.buttons, |f.buttons|, false, depth, maxDepth, visited);
    var s := LinksOf(web, plan, f.subpages, |f.subpages|, true, depth, maxDepth, b.1);
    (DirectDownloads(web[url].anchors) + b.0 + s.0 + f.externals, s.1)
  }

  /** Steps 2 and 3 of `_crawl_level` for a page at `depth` over the first
      `n` of the targets `ts`: a crawl one level down from each, passing
      over, with `checkVisited`, a target visited by then. */
  function LinksOf(web: map<string, Page>, plan: Plan, ts: seq<string>, n: nat,
                   checkVisited: bool, depth: int, maxDepth: int, visited: set<string>)
    : (r: (seq<Resource>, set<string>))
    requires n <= |ts| && depth <= maxDepth
    ensures visited <= r.1
    decreases maxDepth - depth, 0, n
  {
    if n == 0 then ([], visited)
    else
      var prev := LinksOf(web, plan, ts, n - 1, checkVisited, depth, maxDepth, visited);
      var t := ts[n - 1];
      if !checkVisited || t !in prev.1 then
        var sub := LevelOf(web, plan, t, depth + 1, maxDepth, prev.1);
        (prev.0 + sub.0, sub.1)
      else prev
  }

  /** Following one more target: a crawl one level down from it, unless it
      is passed over. */
  lemma LinksOfStep(web: map<string, Page>, plan: Plan, ts: seq<string>, k: nat, checkVisited: bool, depth: int,
                    maxDepth: int, visited: set<string>)
    requires k < |ts| && depth <= maxDepth
    ensures var prev := LinksOf(web, plan, ts, k, checkVisited, depth, maxDepth, visited);
            var next := LinksOf(web, plan, ts, k + 1, checkVisited, depth, maxDepth, visited);
            if !checkVisited || ts[k] !in prev.1 then
              var sub := LevelOf(web, plan, ts[k], depth + 1, maxDepth, prev.1);
              next == (prev.0 + sub.0, sub.1)
            else next == prev
  {
  }

  /** Below the depth limit every target taken has been visited afterwards,
      crawled then or visited before. */
  lemma {:induction false} LinksOfVisits(web: map<string, Page>, plan: Plan, ts: seq<string>,
                                         n: nat, checkVisited: bool, depth: int, maxDepth: int, visited: set<string>,
                                         i: nat)
    requires i < n <= |ts| && depth < maxDepth
    ensures ts[i] in LinksOf(web, plan, ts, n, checkVisited, depth, maxDepth, visited).1
    decreases n
  {
    var prev := LinksOf(web, plan, ts, n - 1, checkVisited, depth, maxDepth, visited);
    var r := LinksOf(web, plan, ts, n, checkVisited, depth, maxDepth, visited);
    var t := ts[n - 1];
    if i < n - 1 {
      LinksOfVisits(web, plan, ts, n - 1, checkVisited, depth, maxDepth, visited, i);
    }
    if !checkVisited || t !in prev.1 {
      var sub := LevelOf(web, plan, t, depth + 1, maxDepth, prev.1);
      assert r == (prev.0 + sub.0, sub.1);
      assert prev.1 <= sub.1 && (t !in prev.1 ==> t in sub.1);
    } else {
      assert r == prev;
    }
  }

  /** At the depth limit the targets are still followed, but each crawl one
      level down returns at once: nothing is requested or found. */
  lemma {:induction false} LinksOfAtLimit(web: map<string, Page>, plan: Plan, ts: seq<string>,
                                          n: nat, checkVisited: bool, depth: int, visited: set<string>)
    requires n <= |ts|
    ensures LinksOf(web, plan, ts, n, checkVisited, depth, depth, visited) == ([], visited)
    decreases n
  {
    if n > 0 {
      LinksOfAtLimit(web, plan, ts, n - 1, checkVisited, depth, visited);
      var prev := LinksOf(web, plan, ts, n - 1, checkVisited, depth, depth, visited);
      var t := ts[n - 1];
      var sub := LevelOf(web, plan, t, depth + 1, depth, prev.1);
      assert sub == ([], visited);
      assert prev.0 + sub.0 == [];
    }
  }

  /** The follow rule for a page below the depth limit: every download
      button target not visited when the page was reached, and each of the
      first five listed sub-pages, has been visited when the page is
      done. */
  lemma PageOfFollows(web: map<string, Page>, order: set<string> -> seq<string>, plan: Plan, url: string,
                      depth: int, maxDepth: int, visited: set<string>, u: string)
    requires SetOrder(order) && Follows(web, order, maxDepth, plan) && url in web && depth < maxDepth
    requires u in DownloadButtons(web[url].buttons, visited) || u in SubpagesTaken(order, web[url], depth, maxDepth)
    ensures u in PageOf(web, plan, url, depth, maxDepth, visited).1
  {
    var page := web[url];
    var buttons := order(DownloadButtons(page.buttons, visited));
    var b := LinksOf(web, plan, buttons, |buttons|, false, depth, maxDepth, visited);
    var subs := SubpagesTaken(order, page, depth, maxDepth);
    assert PlanAt(plan, url, depth, visited) == Finds(buttons, subs, ExternalsOf(order(ExternalPlatforms(page.anchors)), url));
    assert ListingOf(order, DownloadButtons(page.buttons, visited)) == buttons;
    assert Lists(buttons, DownloadButtons(page.buttons, visited));
    if u in DownloadButtons(page.buttons, visited) {
      var i :| 0 <= i < |buttons| && buttons[i] == u;
      LinksOfVisits(web, plan, buttons, |buttons|, false, depth, maxDepth, visited, i);
    } else {
      var i :| 0 <= i < |subs| && subs[i] == u;
      LinksOfVisits(web, plan, subs, |subs|, true, depth, maxDepth, b.1, i);
    }
  }

  /** Every page a crawl visits that answered contributes all of its direct
      downloads to what the crawl returns. */
  lemma {:induction false} LevelOfComplete(web: map<string, Page>, plan: Plan, url: string,
                                           depth: int, maxDepth: int, visited: set<string>, u: string)
    requires u in LevelOf(web, plan, url, depth, maxDepth, visited).1 && u !in visited && u in web
    ensures multiset(DirectDownloads(web[u].anchors)) <= multiset(LevelOf(web, plan, url, depth, maxDepth, visited).0)
    decreases maxDepth - depth, 2, 0
  {
    if depth <= maxDepth && url !in visited && url in web && u != url {
      PageOfComplete(web, plan, url, depth, maxDepth, visited + {url}, u);
    }
  }

  /** The same for the body of `_crawl_level`. */
  lemma {:induction false} PageOfComplete(web: map<string, Page>, plan: Plan, url: string,
                                          depth: int, maxDepth: int, visited: set<string>, u: string)
    requires url in web && depth <= maxDepth
    requires u in PageOf(web, plan, url, depth, maxDepth, visited).1 && u !in visited && u in web
    ensures multiset(DirectDownloads(web[u].anchors)) <= multiset(PageOf(web, plan, url, depth, maxDepth, visited).0)
    decreases maxDepth - depth, 1, 0
  {
    var f := plan(url, depth, visited);
    var b := LinksOf(web, plan, f.buttons, |f.buttons|, false, depth, maxDepth, visited);
    var s := LinksOf(web, plan, f.subpages, |f.subpages|, true, depth, maxDepth, b.1);
    assert PageOf(web, plan, url, depth, maxDepth, visited).0 == DirectDownloads(web[url].anchors) + b.0 + s.0 + f.externals;
    if u in b.1 {
      LinksOfComplete(web, plan, f.buttons, |f.buttons|, false, depth, maxDepth, visited, u);
    } else {
      LinksOfComplete(web, plan, f.subpages, |f.subpages|, true, depth, maxDepth, b.1, u);
    }
  }

  /** The same for steps 2 and 3 over the first `n` targets. */
  lemma {:induction false} LinksOfComplete(web: map<string, Page>, plan: Plan, ts: seq<string>,
                                           n: nat, checkVisited: bool, depth: int, maxDepth: int,
                                           visited: set<string>, u: string)
    requires n <= |ts| && depth <= maxDepth
    requires u in LinksOf(web, plan, ts, n, checkVisited, depth, maxDepth, visited).1 && u !in visited && u in web
    ensures multiset(DirectDownloads(web[u].anchors)) <=
              multiset(LinksOf(web, plan, ts, n, checkVisited, depth, maxDepth, visited).0)
    decreases maxDepth - depth, 0, n
  {
    if n > 0 {
      var prev := LinksOf(web, plan, ts, n - 1, checkVisited, depth, maxDepth, visited);
      var r := LinksOf(web, plan, ts, n, checkVisited, depth, maxDepth, visited);
      var t := ts[n - 1];
      if !checkVisited || t !in prev.1 {
        var sub := LevelOf(web, plan, t, depth + 1, maxDepth, prev.1);
        assert r == (prev.0 + sub.0, sub.1);
        if u in prev.1 {
          LinksOfComplete(web, plan, ts, n - 1, checkVisited, depth, maxDepth, visited, u);
        } else {
          LevelOfComplete(web, plan, t, depth + 1, maxDepth, prev.1, u);
        }
      } else {
        assert r == prev;
        LinksOfComplete(web, plan, ts, n - 1, checkVisited, depth, maxDepth, visited, u);
      }
    }
  }

  /** What `test_specific_tutorials` collects before de-duplication: the
      crawls from `urls`, in order, each to depth 2 and sharing the visited
      set. */
  function TestsOf(web: map<string, Page>, plan: Plan, urls: seq<string>, visited: set<string>)
    : (r: (seq<Resource>, set<string>))
    ensures visited <= r.1
    decreases |urls|
  {
    if urls == [] then ([], visited)
    else
      var prev := TestsOf(web, plan, urls[..|urls| - 1], visited);
      var last := LevelOf(web, plan, urls[|urls| - 1], 0, TestDepth, prev.1);
      (prev.0 + last.0, last.1)
  }

  /** The scraper: the set of URLs it has visited, shared by every crawl it
      makes. `fetched` logs every page request in order. */
  class MultiLevelScraper {
    var visited: set<string>
    ghost var fetched: seq<Fetch>

    /** A URL is visited exactly when it was requested, and it was requested
        once. */
    ghost predicate Valid()
      reads this
    {
      Logged(visited, fetched)
    }

    constructor()
      ensures visited == {} && fetched == [] && Valid()
    {
      visited := {};
      fetched := [];
    }

    /** `self.visited.add(url)` before the request for `url`. */
    method Visit(url: string, depth: int)
      requires Valid() && url !in visited
      modifies this
      ensures Valid() && visited == old(visited) + {url} && fetched == old(fetched) + [Fetch(url, depth)]
    {
      LogVisit(visited, fetched, url, depth);
      visited := visited + {url};
      fetched := fetched + [Fetch(url, depth)];
    }

    /** `follow_tutorial_path(start_url, max_depth)` */
    method FollowTutorialPath(web: map<string, Page>, order: set<string> -> seq<string>, startUrl: string,
                              maxDepth: int)
      returns (found: seq<Resource>)
      requires Valid() && SetOrder(order)
      modifies this
      ensures Valid() && old(fetched) <= fetched && old(visited) <= visited
      ensures AtLeast(fetched, |old(fetched)|, 0) && AtMost(fetched, |old(fetched)|, maxDepth)
      ensures FromPages(found, web, OwnResource, fetched, |old(fetched)|)
      ensures (found, visited) == LevelOf(web, PlanOf(web, order, maxDepth), startUrl, 0, maxDepth, old(visited))
    {
      PlanOfFollows(web, order, maxDepth);
      found := CrawlLevel(web, order, PlanOf(web, order, maxDepth), startUrl, 0, maxDepth);
    }

    /** `_crawl_level(url, depth, max_depth)` over the pages of `web`; a URL
        missing from `web` stands for a request that raised. Every page it
        requests is at depth `depth` to `maxDepth`, the first of them `url`
        itself, and every resource it returns was found on one of them. */
    method CrawlLevel(web: map<string, Page>, order: set<string> -> seq<string>, ghost plan: Plan,
                      url: string, depth: int, maxDepth: int)
      returns (found: seq<Resource>)
      requires Valid() && SetOrder(order) && Follows(web, order, maxDepth, plan)
      modifies this
      ensures Valid() && old(fetched) <= fetched && old(visited) <= visited
      ensures depth > maxDepth || url in old(visited) ==> fetched == old(fetched) && found == []
      ensures depth <= maxDepth && url !in old(visited) ==>
                |old(fetched)| < |fetched| && fetched[|old(fetched)|] == Fetch(url, depth)
      ensures url !in web ==> found == []
      ensures AtLeast(fetched, |old(fetched)|, depth) && AtLeast(fetched, |old(fetched)| + 1, depth + 1)
      ensures AtMost(fetched, |old(fetched)|, maxDepth)
      ensures FromPages(found, web, OwnResource, fetched, |old(fetched)|)
      ensures (found, visited) == LevelOf(web, plan, url, depth, maxDepth, old(visited))
      decreases maxDepth - depth, 2
    {
      if depth > maxDepth || url in visited {
        return [];
      }
      ghost var start := |fetched|;
      Visit(url, depth);
      found := [];
      if url in web {
        found := CrawlPage(web, order, plan, url, depth, maxDepth);
      }
      AtLeastFrom(fetched, start, depth);
    }

    /** `_crawl_level` for the page at `url`, just requested at `depth`:
        its direct downloads, then its download buttons, its tutorial
        sub-pages and its external platform links. */
    method CrawlPage(web: map<string, Page>, order: set<string> -> seq<string>, ghost plan: Plan,
                     url: string, depth: int, maxDepth: int)
      returns (found: seq<Resource>)
      requires Valid() && SetOrder(order) && Follows(web, order, maxDepth, plan) && depth <= maxDepth && url in web
      requires fetched != [] && fetched[|fetched| - 1] == Fetch(url, depth)
      modifies this
      ensures Valid() && old(fetched) <= fetched && old(visited) <= visited
      ensures AtLeast(fetched, |old(fetched)|, depth + 1) && AtMost(fetched, |old(fetched)|, maxDepth)
      ensures FromPages(found, web, OwnResource, fetched, |old(fetched)| - 1)
      ensures (found, visited) == PageOf(web, plan, url, depth, maxDepth, old(visited))
      decreases maxDepth - depth, 1
    {
      ghost var start := |fetched| - 1;
      var page := web[url];
      assert PlanAt(plan, url, depth, visited) == FindsOf(order, page, url, depth, maxDepth, visited);
      found := DirectDownloads(page.anchors);
      FromPagesOwn(found, web, OwnResource, fetched, start);

      // download buttons: followed one level down with no depth test here
      ghost var atPage := fetched;
      var sub := FollowLinks(web, order, plan, order(DownloadButtons(page.buttons, visited)), false, depth, maxDepth);
      FromPagesGrow(found, web, OwnResource, atPage, fetched, start);
      FromPagesJoin(found, sub, web, OwnResource, fetched, start, start + 1);
      found := found + sub;

      // tutorial sub-pages: only above the depth limit, at most five of them
      ghost var before := fetched;
      sub := FollowLinks(web, order, plan, SubpagesTaken(order, page, depth, maxDepth), true, depth, maxDepth);
      AtLeastJoin(before, fetched, start + 1, depth + 1);
      AtMostJoin(before, fetched, start + 1, maxDepth);
      FromPagesGrow(found, web, OwnResource, before, fetched, start);
      FromPagesJoin(found, sub, web, OwnResource, fetched, start, |before|);
      found := found + sub;

      // external platform links
      var exts := ExternalPlatforms(page.anchors);
      var added := AddExternal(order(exts), url);
      assert ListingOf(order, exts) == order(exts);
      ExternalsOfFrom(order(exts), exts, url);
      FromPagesOwn(added, web, OwnResource, fetched, start);
      FromPagesJoin(found, added, web, OwnResource, fetched, start, start);
      found := found + added;
    }

    /** Steps 2 and 3 of `_crawl_level` for a page at `depth`: crawl one
        level down from each target in turn; with `checkVisited`, a target
        visited by then is passed over. */
    method FollowLinks(web: map<string, Page>, order: set<string> -> seq<string>, ghost plan: Plan,
                       targets: seq<string>, checkVisited: bool, depth: int, maxDepth: int)
      returns (found: seq<Resource>)
      requires Valid() && SetOrder(order) && Follows(web, order, maxDepth, plan) && depth <= maxDepth
      modifies this
      ensures Valid() && old(fetched) <= fetched && old(visited) <= visited
      ensures AtLeast(fetched, |old(fetched)|, depth + 1) && AtMost(fetched, |old(fetched)|, maxDepth)
      ensures FromPages(found, web, OwnResource, fetched, |old(fetched)|)
      ensures (found, visited) == LinksOf(web, plan, targets, |targets|, checkVisited, depth, maxDepth, old(visited))
      decreases maxDepth - depth, 0
    {
      found := [];
      for k := 0 to |targets|
        invariant Valid() && old(fetched) <= fetched && old(visited) <= visited
        invariant AtLeast(fetched, |old(fetched)|, depth + 1) && AtMost(fetched, |old(fetched)|, maxDepth)
        invariant FromPages(found, web, OwnResource, fetched, |old(fetched)|)
        invariant (found, visited) == LinksOf(web, plan, targets, k, checkVisited, depth, maxDepth, old(visited))
      {
        var t := targets[k];
        LinksOfStep(web, plan, targets, k, checkVisited, depth, maxDepth, old(visited));
        if !checkVisited || t !in visited {
          ghost var before := fetched;
          var sub := CrawlLevel(web, order, plan, t, depth + 1, maxDepth);
          AtLeastJoin(before, fetched, |old(fetched)|, depth + 1);
          AtMostJoin(before, fetched, |old(fetched)|, maxDepth);
          FromPagesGrow(found, web, OwnResource, before, fetched, |old(fetched)|);
          FromPagesJoin(found, sub, web, OwnResource, fetched, |old(fetched)|, |before|);
          found := found + sub;
        }
      }
    }

    /** `test_specific_tutorials`: follow each test URL to depth 2, keep the
        first resource per URL, and count the kept ones by type. */
    method TestSpecificTutorials(web: map<string, Page>, order: set<string> -> seq<string>)
      returns (unique: seq<Resource>, byType: seq<(string, nat)>)
      requires Valid() && SetOrder(order)
      modifies this
      ensures Valid() && old(fetched) <= fetched
      ensures DistinctKeys(unique, UrlOf)
      ensures TallyOf(unique, TypeOf, byType)
      ensures FromPages(unique, web, OwnResource, fetched, |old(fetched)|)
      ensures AtMost(fetched, |old(fetched)|, TestDepth)
      ensures var (all, after) := TestsOf(web, PlanOf(web, order, TestDepth), TestUrls, old(visited));
              unique == FirstOfEach(all, UrlOf, KeepAll) && visited == after
    {
      ghost var plan := PlanOf(web, order, TestDepth);
      var all: seq<Resource> := [];
      for t := 0 to |TestUrls|
        invariant Valid() && old(fetched) <= fetched
        invariant AtMost(fetched, |old(fetched)|, TestDepth)
        invariant FromPages(all, web, OwnResource, fetched, |old(fetched)|)
        invariant (all, visited) == TestsOf(web, plan, TestUrls[..t], old(visited))
      {
        assert TestUrls[..t + 1][..t] == TestUrls[..t];
        ghost var before := fetched;
        var resources := FollowTutorialPath(web, order, TestUrls[t], TestDepth);
        AtMostJoin(before, fetched, |old(fetched)|, TestDepth);
        FromPagesGrow(all, web, OwnResource, before, fetched, |old(fetched)|);
        FromPagesJoin(all, resources, web, OwnResource, fetched, |old(fetched)|, |before|);
        all := all + resources;
      }
      assert TestUrls[..|TestUrls|] == TestUrls;
      ghost var idx;
      unique, idx := DedupByKey(all, UrlOf, KeepAll);
      FromPagesPick(all, unique, web, OwnResource, fetched, |old(fetched)|);
      byType := Tally(unique, TypeOf);
    }

    /** `download_found_resources(resources, max_downloads)`: one attempt,
        numbered from 1, per selected Mercator resource. `opens(name)` says
        whether `open(download_dir / name, 'wb')` succeeds for a name that
        is not the directory itself or its parent. */
    method DownloadFoundResources(resources: seq<Resource>, maxDownloads: int, remote: string -> Remote,
                                  opens: string -> bool)
      returns (attempts: seq<Attempt>)
      ensures |attempts| == |Selected(resources, maxDownloads)|
      ensures forall k :: 0 <= k < |attempts| ==>
                attempts[k] == AttemptOf(Selected(resources, maxDownloads)[k].url, k + 1, remote, opens)
    {
      var mercator := Filter(resources, IsMercator);
      var chosen := SliceTo(mercator, maxDownloads);
      attempts := [];
      for i := 0 to |chosen|
        invariant attempts == Attempts(chosen[..i], remote, opens)
      {
        AttemptsSnoc(chosen, i, remote, opens);
        var a := Download(chosen[i].url, i + 1, remote, opens);
        attempts := attempts + [a];
      }
      assert chosen[..|chosen|] == chosen;
      AttemptsEach(chosen, remote, opens);
    }

    /** One attempt of the download loop. */
    method Download(url: string, i: nat, remote: string -> Remote, opens: string -> bool) returns (a: Attempt)
      ensures a == AttemptOf(url, i, remote, opens)
    {
      var rm := remote(url);
      if rm.head.None? || rm.head.value.contentLength.None? {
        return Failed;
      }
      if rm.head.value.contentLength.value >= MaxSize {
        return TooLarge;
      }
      if rm.body.None? {
        return Failed;
      }
      var name := FileNameFor(url, i, rm.body.value.disposition);
      if name.None? || DirectoryName(name.value) || !opens(name.value) {
        return Failed;
      }
      var header := rm.body.value.data;
      if |header| > 4 {
        header := header[..4];
      }
      a := Saved(name.value, MagicOf(header));
    }
  }

  // ---- download_found_resources ----

  newtype byte = b: int | 0 <= b < 256

  /** Files above 10 MiB are not downloaded. */
  const MaxSize: int := 10 * 1024 * 1024

  /** The answer to the HEAD request: the `content-length` header as an
      integer (absent counts as `'0'`), or `None` when it is not one and
      `int()` raises. */
  datatype Head = Head(contentLength: Option<int>)

  /** The answer to the GET request: the `content-disposition` header (its
      file name when the pattern finds one) and the bytes written. */
  datatype Body = Body(disposition: Option<Option<string>>, data: seq<byte>)

  /** What the server does for one URL; `None` for a request that raises. */
  datatype Remote = Remote(head: Option<Head>, body: Option<Body>)

  datatype Magic = Zip | Pdf | Unknown

  /** The outcome the loop prints for one resource. */
  datatype Attempt = Failed | TooLarge | Saved(filename: string, magic: Magic)

  predicate IsMercator(r: Resource)
  {
    TypeOf(r) == "mercator"
  }

  /** `mercator_resources[:max_downloads]` */
  function Selected(resources: seq<Resource>, maxDownloads: int): seq<Resource>
  {
    SliceTo(Filter(resources, IsMercator), maxDownloads)
  }

  /** Only Mercator resources are tried, in their order, and no more than
      `max_downloads` of them. */
  lemma SelectedBounds(resources: seq<Resource>, maxDownloads: int)
    ensures forall k :: 0 <= k < |Selected(resources, maxDownloads)| ==>
              Selected(resources, maxDownloads)[k] in resources && IsMercator(Selected(resources, maxDownloads)[k])
    ensures Selected(resources, maxDownloads) <= Filter(resources, IsMercator)
    ensures 0 <= maxDownloads ==> |Selected(resources, maxDownloads)| <= maxDownloads
    ensures 0 <= maxDownloads ==>
              |Selected(resources, maxDownloads)| == if maxDownloads < CountOf(resources, IsMercator, true)
                                                    then maxDownloads else CountOf(resources, IsMercator, true)
  {
    var m := Filter(resources, IsMercator);
    var s := Selected(resources, maxDownloads);
    forall k | 0 <= k < |s|
      ensures s[k] in resources && IsMercator(s[k])
    {
      assert s[k] == m[k];
    }
  }

  const ZipMagic: seq<byte> := [0x50, 0x4B]
  const PdfMagic: seq<byte> := [0x25, 0x50, 0x44, 0x46]

  /** The label of a file from its first bytes. */
  function MagicOf(header: seq<byte>): Magic
  {
    if ZipMagic <= header then Zip else if PdfMagic <= header then Pdf else Unknown
  }

  /** Reading the first four bytes decides the label as the whole file
      would. */
  lemma MagicOfFirstFour(data: seq<byte>)
    ensures MagicOf(if |data| > 4 then data[..4] else data) == MagicOf(data)
    ensures MagicOf(data) == Zip <==> |data| >= 2 && data[0] == 0x50 && data[1] == 0x4B
    ensures MagicOf(data) == Pdf <==>
              !(|data| >= 2 && data[0] == 0x50 && data[1] == 0x4B) &&
              |data| >= 4 && data[0] == 0x25 && data[1] == 0x50 && data[2] == 0x44 && data[3] == 0x46
  {
    var h := if |data| > 4 then data[..4] else data;
    assert ZipMagic <= h <==> ZipMagic <= data;
    assert PdfMagic <= h <==> PdfMagic <= data;
  }

  function NumberedName(i: nat): string
  {
    "download_" + NatToString(i) + ".bin"
  }

  /** The file name: the one in `content-disposition`, `download_<i>.bin`
      when that header names none, and without the header the piece before
      `/download` plus `.zip` for a Mercator URL or `download_<i>.bin`
      otherwise. `None` where `url.split('/')[-2]` raises. */
  function FileNameFor(url: string, i: nat, disposition: Option<Option<string>>): Option<string>
  {
    match disposition
    case Some(Some(name)) => Some(name)
    case Some(None) => Some(NumberedName(i))
    case None =>
      if Contains(url, "mercator") then
        match PieceBeforeLast(url, '/')
        case None => None
        case Some(piece) => Some(piece + ".zip")
      else Some(NumberedName(i))
  }

  /** `download_dir / name` is the download directory itself for `""` and
      `"."`, and its parent for `".."`: `open(..., 'wb')` raises on a
      directory, whatever `opens` says. */
  predicate DirectoryName(name: string)
  {
    name == "" || name == "." || name == ".."
  }

  /** The outcome for the `i`-th selected URL. */
  function AttemptOf(url: string, i: nat, remote: string -> Remote, opens: string -> bool): Attempt
  {
    var rm := remote(url);
    if rm.head.None? || rm.head.value.contentLength.None? then Failed
    else if rm.head.value.contentLength.value >= MaxSize then TooLarge
    else if rm.body.None? then Failed
    else
      match FileNameFor(url, i, rm.body.value.disposition)
      case None => Failed
      case Some(name) =>
        if DirectoryName(name) || !opens(name) then Failed
        else
          var data := rm.body.value.data;
          Saved(name, MagicOf(if |data| > 4 then data[..4] else data))
  }
  /** The attempts for `chosen`, numbered from 1, in order. */
  function Attempts(chosen: seq<Resource>, remote: string -> Remote, opens: string -> bool): seq<Attempt>
  {
    if chosen == [] then []
    else
      var n := |chosen| - 1;
      Attempts(chosen[..n], remote, opens) + [AttemptOf(chosen[n].url, n + 1, remote, opens)]
  }

  lemma AttemptsSnoc(chosen: seq<Resource>, i: nat, remote: string -> Remote, opens: string -> bool)
    requires i < |chosen|
    ensures Attempts(chosen[..i + 1], remote, opens) ==
            Attempts(chosen[..i], remote, opens) + [AttemptOf(chosen[i].url, i + 1, remote, opens)]
  {
    assert chosen[..i + 1][..i] == chosen[..i];
  }

  lemma {:induction false} AttemptsEach(chosen: seq<Resource>, remote: string -> Remote, opens: string -> bool)
    ensures |Attempts(chosen, remote, opens)| == |chosen|
    ensures forall k :: 0 <= k < |chosen| ==>
              Attempts(chosen, remote, opens)[k] == AttemptOf(chosen[k].url, k + 1, remote, opens)
    decreases |chosen|
  {
    if chosen != [] {
      var n := |chosen| - 1;
      var prev := Attempts(chosen[..n], remote, opens);
      AttemptsEach(chosen[..n], remote, opens);
      assert Attempts(chosen, remote, opens) == prev + [AttemptOf(chosen[n].url, n + 1, remote, opens)];
      forall k | 0 <= k < |chosen|
        ensures Attempts(chosen, remote, opens)[k] == AttemptOf(chosen[k].url, k + 1, remote, opens)
      {
        if k < n {
          assert chosen[..n][k] == chosen[k];
          assert Attempts(chosen, remote, opens)[k] == prev[k];
        }
      }
    }
  }


  /** A file is saved exactly when the HEAD answer has a length under
      10 MiB, the GET answers, the name can be formed, is not the directory
      or its parent, and opens for writing; it carries the label of its
      bytes. A length of 10 MiB or more stops it before the GET. */
  lemma AttemptOfSaved(url: string, i: nat, remote: string -> Remote, opens: string -> bool)
    ensures AttemptOf(url, i, remote, opens).Saved? <==>
              remote(url).head.Some? && remote(url).head.value.contentLength.Some? &&
              remote(url).head.value.contentLength.value < MaxSize && remote(url).body.Some? &&
              FileNameFor(url, i, remote(url).body.value.disposition).Some? &&
              !DirectoryName(FileNameFor(url, i, remote(url).body.value.disposition).value) &&
              opens(FileNameFor(url, i, remote(url).body.value.disposition).value)
    ensures AttemptOf(url, i, remote, opens).Saved? ==>
              AttemptOf(url, i, remote, opens).filename ==
                FileNameFor(url, i, remote(url).body.value.disposition).value &&
              AttemptOf(url, i, remote, opens).magic == MagicOf(remote(url).body.value.data)
    ensures AttemptOf(url, i, remote, opens) == TooLarge <==>
              remote(url).head.Some? && remote(url).head.value.contentLength.Some? &&
              remote(url).head.value.contentLength.value >= MaxSize
  {
    if remote(url).body.Some? {
      MagicOfFirstFour(remote(url).body.value.data);
    }
  }

  lemma HostNamesMercator()
    ensures Contains(MercatorHost, "mercator")
  {
    assert "mercator" <= MercatorHost[6..];
    ContainsInSuffix(MercatorHost, 6, "mercator");
  }

  /** A rewritten Mercator share link with no `content-disposition` is saved
      under the last piece of the link with `.zip`. */
  lemma RewrittenFileName(ext: string, page: string, i: nat)
    requires Contains(ext, MercatorHost) && !EndsWith(ext, DownloadSuffix)
    ensures FileNameFor(ExternalResource(ext, page).value.url, i, None) == Some(AfterLast(ext, '/') + ".zip")
  {
    MercatorRewrite(ext, page);
    var url := ExternalResource(ext, page).value.url;
    HostNamesMercator();
    ContainsTrans(url, MercatorHost, "mercator");
    assert Contains(url, "mercator");
    assert PieceBeforeLast(url, '/') == Some(AfterLast(ext, '/'));
  }
}
