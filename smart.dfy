/** The smart scraper: a depth-limited walk over GitHub contents listings
    collecting `.ipynb` and `.zip` files, the link classification of the
    Copernicus page scan, the de-duplication and counts of a run, and the
    download loop over the first few notebook and archive entries. The
    contents API is given as a map from listing URL to the items of a
    listing that answered with status 200. */
module Smart {
  import opened Wrappers
  import opened Text
  import opened Collect
  import Notebooks

  /** One result record: `url`, `filename`, `type`, `source`, `size` (0 where
      the record has none) and `description`. */
  datatype Entry = Entry(url: string, filename: string, kind: string, source: string, size: nat,
                         description: string)

  function UrlOf(e: Entry): string
  {
    e.url
  }

  function KindOf(e: Entry): string
  {
    e.kind
  }

  function SourceOf(e: Entry): string
  {
    e.source
  }

  // ---- _search_github_files ----

  /** The names of the directories worth descending into. */
  const RelevantDirs: seq<string> :=
    ["notebooks", "examples", "tutorials", "demos", "training", "exercises", "data", "use-cases"]

  predicate IsNotebookName(name: string)
  {
    EndsWith(name, ".ipynb")
  }

  /** A file item named `.ipynb` or `.zip`. */
  predicate IsWanted(item: Notebooks.Item)
  {
    item.kind == "file" && (IsNotebookName(item.name) || EndsWith(item.name, ".zip"))
  }

  function EntryOf(item: Notebooks.Item): Entry
  {
    Entry(item.downloadUrl, item.name, if IsNotebookName(item.name) then "notebook" else "archive", "github",
          item.size, item.path)
  }

  /** What every entry of the walk satisfies: a `.ipynb` or `.zip` name, type
      `notebook` exactly for `.ipynb`, else `archive`, and source `github`. */
  predicate GitHubEntry(e: Entry)
  {
    (IsNotebookName(e.filename) || EndsWith(e.filename, ".zip")) &&
    (e.kind == "notebook" <==> IsNotebookName(e.filename)) &&
    (e.kind == "notebook" || e.kind == "archive") &&
    e.source == "github"
  }

  /** A directory item the walk at `depth` descends into. */
  predicate Descends(item: Notebooks.Item, depth: int, maxDepth: int)
  {
    item.kind == "dir" && depth < maxDepth && ContainsAny(Lower(item.name), RelevantDirs) && item.url != ""
  }

  /** What `_search_github_files(api_url, resources, depth, max_depth)`
      appends to `resources`. */
  function Searched(api: Notebooks.Api, apiUrl: string, depth: int, maxDepth: int): (r: seq<Entry>)
    ensures depth > maxDepth || apiUrl !in api ==> r == []
    ensures forall k :: 0 <= k < |r| ==> GitHubEntry(r[k])
    decreases maxDepth - depth + 1, 1, 0
  {
    if depth > maxDepth || apiUrl !in api then [] else Listed(api, api[apiUrl], depth, maxDepth)
  }

  /** What the loop over the items of one listing at `depth` appends. */
  function Listed(api: Notebooks.Api, items: seq<Notebooks.Item>, depth: int, maxDepth: int): (r: seq<Entry>)
    requires depth <= maxDepth
    ensures forall k :: 0 <= k < |r| ==> GitHubEntry(r[k])
    decreases maxDepth - depth + 1, 0, |items|
  {
    if items == [] then []
    else
      var n := |items| - 1;
      Listed(api, items[..n], depth, maxDepth) + ItemFound(api, items[n], depth, maxDepth)
  }

  function ItemFound(api: Notebooks.Api, item: Notebooks.Item, depth: int, maxDepth: int): (r: seq<Entry>)
    requires depth <= maxDepth
    ensures forall k :: 0 <= k < |r| ==> GitHubEntry(r[k])
    decreases maxDepth - depth + 1, 0, 0
  {
    if IsWanted(item) then [EntryOf(item)]
    else if Descends(item, depth, maxDepth) then Searched(api, item.url, depth + 1, maxDepth)
    else []
  }

  /** The walk started at listing `apiUrl` and `depth` fetches listing `u`:
      `u` is that listing, or is reached from it through a directory item it
      descends into, one level deeper each time, never past `maxDepth`. */
  ghost predicate Reaches(api: Notebooks.Api, apiUrl: string, depth: int, maxDepth: int, u: string)
    decreases maxDepth - depth
  {
    depth <= maxDepth && apiUrl in api &&
    (u == apiUrl ||
     exists j :: 0 <= j < |api[apiUrl]| && Descends(api[apiUrl][j], depth, maxDepth) &&
                 Reaches(api, api[apiUrl][j].url, depth + 1, maxDepth, u))
  }

  /** `e` is the record of a wanted file item of a listing the walk from
      `apiUrl` at `depth` reaches. */
  ghost predicate FromApi(api: Notebooks.Api, apiUrl: string, depth: int, maxDepth: int, e: Entry)
  {
    exists u, j :: Reaches(api, apiUrl, depth, maxDepth, u) && u in api && 0 <= j < |api[u]| &&
                   IsWanted(api[u][j]) && e == EntryOf(api[u][j])
  }

  /** What a descended directory's walk finds is found by its parent's. */
  lemma FromApiLift(api: Notebooks.Api, apiUrl: string, depth: int, maxDepth: int, i: nat, e: Entry)
    requires depth <= maxDepth && apiUrl in api && i < |api[apiUrl]| && Descends(api[apiUrl][i], depth, maxDepth)
    requires FromApi(api, api[apiUrl][i].url, depth + 1, maxDepth, e)
    ensures FromApi(api, apiUrl, depth, maxDepth, e)
  {
    var u, j :| Reaches(api, api[apiUrl][i].url, depth + 1, maxDepth, u) && u in api && 0 <= j < |api[u]| &&
                IsWanted(api[u][j]) && e == EntryOf(api[u][j]);
    assert Reaches(api, apiUrl, depth, maxDepth, u);
  }

  /** Every entry found is the record of a wanted file item of a listing the
      walk reaches. */
  lemma {:induction false} SearchedFromApi(api: Notebooks.Api, apiUrl: string, depth: int, maxDepth: int)
    ensures forall k :: 0 <= k < |Searched(api, apiUrl, depth, maxDepth)| ==>
              FromApi(api, apiUrl, depth, maxDepth, Searched(api, apiUrl, depth, maxDepth)[k])
    decreases maxDepth - depth + 1, 1, 0
  {
    if depth <= maxDepth && apiUrl in api {
      ListedFromApi(api, api[apiUrl], depth, maxDepth, apiUrl, |api[apiUrl]|);
    }
  }

  lemma {:induction false} ListedFromApi(api: Notebooks.Api, items: seq<Notebooks.Item>, depth: int, maxDepth: int,
                                         u: string, m: nat)
    requires depth <= maxDepth && u in api && m <= |api[u]| && items == api[u][..m]
    ensures forall k :: 0 <= k < |Listed(api, items, depth, maxDepth)| ==>
              FromApi(api, u, depth, maxDepth, Listed(api, items, depth, maxDepth)[k])
    decreases maxDepth - depth + 1, 0, |items|
  {
    if items != [] {
      var n := |items| - 1;
      assert items[..n] == api[u][..n];
      ListedFromApi(api, items[..n], depth, maxDepth, u, n);
      var item := items[n];
      assert item == api[u][n];
      var prev := Listed(api, items[..n], depth, maxDepth);
      var here := ItemFound(api, item, depth, maxDepth);
      if IsWanted(item) {
        assert here == [EntryOf(item)];
        assert Reaches(api, u, depth, maxDepth, u);
        assert FromApi(api, u, depth, maxDepth, here[0]);
      } else if Descends(item, depth, maxDepth) {
        SearchedFromApi(api, item.url, depth + 1, maxDepth);
        assert here == Searched(api, item.url, depth + 1, maxDepth);
        forall k | 0 <= k < |here|
          ensures FromApi(api, u, depth, maxDepth, here[k])
        {
          FromApiLift(api, u, depth, maxDepth, n, here[k]);
        }
      } else {
        assert here == [];
      }
      assert forall k :: 0 <= k < |here| ==> FromApi(api, u, depth, maxDepth, here[k]);
      assert Listed(api, items, depth, maxDepth) == prev + here;
    }
  }

  /** Every wanted file item of a listing the walk reaches is found. */
  lemma {:induction false} SearchedComplete(api: Notebooks.Api, apiUrl: string, depth: int, maxDepth: int, u: string,
                                            j: nat)
    requires Reaches(api, apiUrl, depth, maxDepth, u) && u in api && j < |api[u]| && IsWanted(api[u][j])
    ensures EntryOf(api[u][j]) in Searched(api, apiUrl, depth, maxDepth)
    decreases maxDepth - depth
  {
    var items := api[apiUrl];
    if u == apiUrl {
      assert ItemFound(api, items[j], depth, maxDepth) == [EntryOf(items[j])];
      ListedHas(api, items, depth, maxDepth, j, EntryOf(items[j]));
    } else {
      var i :| 0 <= i < |items| && Descends(items[i], depth, maxDepth) &&
               Reaches(api, items[i].url, depth + 1, maxDepth, u);
      SearchedComplete(api, items[i].url, depth + 1, maxDepth, u, j);
      assert ItemFound(api, items[i], depth, maxDepth) == Searched(api, items[i].url, depth + 1, maxDepth);
      ListedHas(api, items, depth, maxDepth, i, EntryOf(api[u][j]));
    }
  }

  /** What one item of a listing finds is found by the listing. */
  lemma {:induction false} ListedHas(api: Notebooks.Api, items: seq<Notebooks.Item>, depth: int, maxDepth: int, i: nat,
                                     e: Entry)
    requires depth <= maxDepth && i < |items| && e in ItemFound(api, items[i], depth, maxDepth)
    ensures e in Listed(api, items, depth, maxDepth)
    decreases |items|
  {
    var n := |items| - 1;
    if i < n {
      assert items[..n][i] == items[i];
      ListedHas(api, items[..n], depth, maxDepth, i, e);
    }
  }

  /** One more item of a listing appends what that item finds. */
  lemma ListedStep(api: Notebooks.Api, items: seq<Notebooks.Item>, i: nat, depth: int, maxDepth: int)
    requires i < |items| && depth <= maxDepth
    ensures Listed(api, items[..i + 1], depth, maxDepth) ==
              Listed(api, items[..i], depth, maxDepth) + ItemFound(api, items[i], depth, maxDepth)
  {
    assert items[..i + 1][..i] == items[..i];
  }

  /** `_search_github_files`: `resources` is the caller's list, returned with
      the entries of this listing and its relevant sub-directories appended
      and nothing before them changed. */

  method SearchGithubFiles(api: Notebooks.Api, apiUrl: string, resources: seq<Entry>, depth: int, maxDepth: int)
    returns (resources': seq<Entry>)
    ensures resources' == resources + Searched(api, apiUrl, depth, maxDepth)
    decreases maxDepth - depth + 1
  {
    resources' := resources;
    if depth > maxDepth || apiUrl !in api {
      return;
    }
    var items := api[apiUrl];
    for i := 0 to |items|
      invariant resources' == resources + Listed(api, items[..i], depth, maxDepth)
    {
      ListedStep(api, items, i, depth, maxDepth);
      var item := items[i];
      ghost var found := ItemFound(api, item, depth, maxDepth);
      AppendAssoc(resources, Listed(api, items[..i], depth, maxDepth), found);
      if item.kind == "file" {
        if IsNotebookName(item.name) || EndsWith(item.name, ".zip") {
          assert found == [EntryOf(item)];
          resources' := resources' + [EntryOf(item)];
        } else {
          assert found == [];
        }
      } else if item.kind == "dir" && depth < maxDepth {
        if ContainsAny(Lower(item.name), RelevantDirs) && item.url != "" {
          assert found == Searched(api, item.url, depth + 1, maxDepth);
          resources' := SearchGithubFiles(api, item.url, resources', depth + 1, maxDepth);
        } else {
          assert found == [];
        }
      } else {
        assert found == [];
      }
    }
    assert items[..|items|] == items;
  }

  // ---- find_direct_downloads ----

  /** An `<a href>` of a scanned page: its href, its stripped text and the
      absolute URL `urljoin` makes of it. */
  datatype Link = Link(href: string, text: string, target: string)

  const FileExtensions: seq<string> := [".ipynb", ".zip", ".tar", ".gz"]

  const MaxDescription: nat := 100

  /** The entry a link of a scanned page adds, if any: a file extension in
      the lower-cased href makes a `file` entry with the absolute URL;
      otherwise a `github.com` href holding `.ipynb` makes a `notebook`
      entry with the raw URL; otherwise nothing. */
  function ClassifyLink(link: Link): Option<Entry>
  {
    if ContainsAny(Lower(link.href), FileExtensions) then
      Some(Entry(link.target, AfterLast(link.href, '/'), "file", "copernicus", 0,
                 Take(link.text, MaxDescription)))
    else if Contains(link.href, Notebooks.GitHubHost) && Contains(link.href, ".ipynb") then
      Some(Entry(Notebooks.ConvertToRawUrl(link.href), AfterLast(link.href, '/'), "notebook",
                 "copernicus_github_link", 0, Take(link.text, MaxDescription)))
    else None
  }

  /** The `.ipynb` test of the GitHub branch is case-sensitive while the
      extension test before it is not, so every href that would reach the
      raw-URL rewrite is already a `file` entry: the scan never yields a
      `copernicus_github_link` entry. */
  lemma ClassifyLinkGitHubBranchUnreachable(link: Link)
    ensures ClassifyLink(link).Some? ==>
              ClassifyLink(link).value.kind == "file" && ClassifyLink(link).value.source == "copernicus"
    ensures ClassifyLink(link).Some? <==> ContainsAny(Lower(link.href), FileExtensions)
    ensures ClassifyLink(link).Some? ==> ClassifyLink(link).value == FileEntryOf(link)
  {
    if Contains(link.href, ".ipynb") {
      ContainsLower(link.href, ".ipynb");
      assert Lower(".ipynb") == ".ipynb";
      assert Contains(Lower(link.href), FileExtensions[0]);
    }
  }

  /** What the scan of one page adds, link by link. */
  function LinksFound(links: seq<Link>): seq<Entry>
  {
    Harvest(links, ClassifyLink)
  }

  /** The pages `find_direct_downloads` scans. */
  const DirectPages: seq<string> := [
    "https://marine.copernicus.eu/services/user-learning-services/tutorials",
    "https://marine.copernicus.eu/services/use-cases",
    "https://help.marine.copernicus.eu/en/collections/4060068-copernicus-marine-toolbox"]

  /** What the scans of the pages `pages[..i]` add; a page missing from
      `site` is one whose request raised. */
  function PagesFound(site: map<string, seq<Link>>, pages: seq<string>): seq<Entry>
  {
    if pages == [] then []
    else
      var n := |pages| - 1;
      PagesFound(site, pages[..n]) + (if pages[n] in site then LinksFound(site[pages[n]]) else [])
  }

  /** The `file` entry a link with a file extension in its lower-cased
      href makes. */
  function FileEntryOf(link: Link): Entry
  {
    Entry(link.target, AfterLast(link.href, '/'), "file", "copernicus", 0, Take(link.text, MaxDescription))
  }

  /** `e` is the entry of one of `links` whose lower-cased href holds a file
      extension. */
  ghost predicate MadeOfFileLink(links: seq<Link>, e: Entry)
  {
    exists i :: 0 <= i < |links| && ContainsAny(Lower(links[i].href), FileExtensions) && e == FileEntryOf(links[i])
  }

  /** Every entry of the scan is a `file` entry from `copernicus`, made of a
      link whose lower-cased href holds a file extension: its url is the
      link's absolute url and its file name the last path piece of the href.
      Conversely every such link gives its entry. */
  lemma LinksFoundFiles(links: seq<Link>)
    ensures forall k :: 0 <= k < |LinksFound(links)| ==>
              LinksFound(links)[k].kind == "file" && LinksFound(links)[k].source == "copernicus"
    ensures forall k :: 0 <= k < |LinksFound(links)| ==> MadeOfFileLink(links, LinksFound(links)[k])
    ensures forall i :: 0 <= i < |links| && ContainsAny(Lower(links[i].href), FileExtensions) ==>
              FileEntryOf(links[i]) in LinksFound(links)
  {
    HarvestMembers(links, ClassifyLink);
    var found := LinksFound(links);
    forall k | 0 <= k < |found|
      ensures found[k].kind == "file" && found[k].source == "copernicus"
      ensures MadeOfFileLink(links, found[k])
    {
      var i :| 0 <= i < |links| && ClassifyLink(links[i]) == Some(found[k]);
      ClassifyLinkGitHubBranchUnreachable(links[i]);
      assert 0 <= i < |links| && ContainsAny(Lower(links[i].href), FileExtensions) &&
             found[k] == FileEntryOf(links[i]);
    }
    forall i | 0 <= i < |links| && ContainsAny(Lower(links[i].href), FileExtensions)
      ensures FileEntryOf(links[i]) in found
    {
      ClassifyLinkGitHubBranchUnreachable(links[i]);
    }
  }

  /** The link loop of `find_direct_downloads` over one page. */
  method ScanPage(links: seq<Link>) returns (found: seq<Entry>)
    ensures found == LinksFound(links)
  {
    found := [];
    for i := 0 to |links|
      invariant found == LinksFound(links[..i])
    {
      HarvestStep(links, ClassifyLink, i);
      var e := ClassifyLink(links[i]);
      if e.Some? {
        found := found + [e.value];
      }
    }
    assert links[..|links|] == links;
  }

  /** `find_direct_downloads` over the pages that answered. */
  method FindDirectDownloads(site: map<string, seq<Link>>) returns (resources: seq<Entry>)
    ensures resources == PagesFound(site, DirectPages)
  {
    resources := [];
    for p := 0 to |DirectPages|
      invariant resources == PagesFound(site, DirectPages[..p])
    {
      assert DirectPages[..p + 1][..p] == DirectPages[..p];
      var pageUrl := DirectPages[p];
      if pageUrl in site {
        var found := ScanPage(site[pageUrl]);
        resources := resources + found;
      }
    }
    assert DirectPages[..|DirectPages|] == DirectPages;
  }

  // ---- run ----

  /** The result of `run`. */
  datatype Summary = Summary(total: nat, byType: seq<(string, nat)>, bySource: seq<(string, nat)>,
                             resources: seq<Entry>)

  predicate HasUrl(e: Entry)
  {
    e.url != ""
  }

  /** `run` over what the GitHub, page and Zenodo searches returned: keep
      the first entry per non-empty URL, count by type and by source. */
  method Run(github: seq<Entry>, direct: seq<Entry>, zenodo: seq<Entry>) returns (summary: Summary)
    ensures summary.total == |summary.resources|
    ensures DistinctKeys(summary.resources, UrlOf)
    ensures forall k :: 0 <= k < |summary.resources| ==>
              summary.resources[k].url != "" && summary.resources[k] in github + direct + zenodo
    ensures forall e :: e in github + direct + zenodo && e.url != "" ==>
              exists k :: 0 <= k < |summary.resources| && summary.resources[k].url == e.url
    ensures TallyOf(summary.resources, KindOf, summary.byType)
    ensures TallyOf(summary.resources, SourceOf, summary.bySource)
    ensures summary.resources == FirstOfEach(github + direct + zenodo, UrlOf, HasUrl)
  {
    var all := github + direct + zenodo;
    var unique, idx := DedupByKey(all, UrlOf, HasUrl);
    var byType := Tally(unique, KindOf);
    var bySource := Tally(unique, SourceOf);
    summary := Summary(|unique|, byType, bySource, unique);
    forall e | e in all && e.url != ""
      ensures exists k :: 0 <= k < |unique| && unique[k].url == e.url
    {
      var i :| 0 <= i < |all| && all[i] == e;
      assert HasUrl(all[i]);
    }
  }

  // ---- download_resources ----

  /** A record whose file name ends in `.ipynb` or `.zip`. */
  predicate IsTarget(e: Entry)
  {
    IsNotebookName(e.filename) || EndsWith(e.filename, ".zip")
  }

  /** `[r for r in resources if ...endswith(('.ipynb', '.zip'))][:max_files]` */
  function Targets(resources: seq<Entry>, maxFiles: int): seq<Entry>
  {
    SliceTo(Filter(resources, IsTarget), maxFiles)
  }

  /** Only notebook and archive names are taken, in their order, and no more
      than `max_files` of them. */
  lemma TargetsBounds(resources: seq<Entry>, maxFiles: int)
    ensures forall k :: 0 <= k < |Targets(resources, maxFiles)| ==>
              Targets(resources, maxFiles)[k] in resources && IsTarget(Targets(resources, maxFiles)[k])
    ensures Targets(resources, maxFiles) <= Filter(resources, IsTarget)
    ensures 0 <= maxFiles ==> |Targets(resources, maxFiles)| <= maxFiles
  {
    var f := Filter(resources, IsTarget);
    var t := Targets(resources, maxFiles);
    forall k | 0 <= k < |t|
      ensures t[k] in resources && IsTarget(t[k])
    {
      assert t[k] == f[k];
    }
  }

  /** The outcome for one target. */
  datatype Step = NoUrl | AlreadyThere | Downloaded | Failed

  /** The outcomes for `targets[k..]`, the file names in `present` existing
      in the download directory; a successful download adds its file.
      `fetchOk(url)` says whether the GET request succeeds. */
  function DownloadsFrom(targets: seq<Entry>, k: nat, present: set<string>, fetchOk: string -> bool): (r: seq<Step>)
    requires k <= |targets|
    ensures |r| == |targets| - k
    decreases |targets| - k
  {
    if k == |targets| then []
    else
      var t := targets[k];
      if t.url == "" then [NoUrl] + DownloadsFrom(targets, k + 1, present, fetchOk)
      else if t.filename in present then [AlreadyThere] + DownloadsFrom(targets, k + 1, present, fetchOk)
      else if fetchOk(t.url) then [Downloaded] + DownloadsFrom(targets, k + 1, present + {t.filename}, fetchOk)
      else [Failed] + DownloadsFrom(targets, k + 1, present, fetchOk)
  }

  /** The outcome for `t`, with the names in `present` existing. */
  function StepOf(t: Entry, present: set<string>, fetchOk: string -> bool): Step
  {
    if t.url == "" then NoUrl
    else if t.filename in present then AlreadyThere
    else if fetchOk(t.url) then Downloaded
    else Failed
  }

  lemma DownloadsStep(targets: seq<Entry>, k: nat, present: set<string>, fetchOk: string -> bool)
    requires k < |targets|
    ensures var s := StepOf(targets[k], present, fetchOk);
            DownloadsFrom(targets, k, present, fetchOk) ==
              [s] + DownloadsFrom(targets, k + 1, if s == Downloaded then present + {targets[k].filename} else present, fetchOk)
  {
  }

  /** One step of the download loop over `targets`: the outcome of target
      `i` joins the outcomes so far, and a download adds its name. */
  lemma DownloadsAdvance(targets: seq<Entry>, i: nat, present: set<string>, fetchOk: string -> bool, steps: seq<Step>)
    requires i < |targets| && |steps| == i
    ensures var s := StepOf(targets[i], present, fetchOk);
            var after := if s == Downloaded then present + {targets[i].filename} else present;
            steps + DownloadsFrom(targets, i, present, fetchOk) == (steps + [s]) + DownloadsFrom(targets, i + 1, after, fetchOk) &&
            NamesWritten(targets, steps + [s]) ==
              NamesWritten(targets, steps) + (if s == Downloaded then {targets[i].filename} else {})
  {
    var s := StepOf(targets[i], present, fetchOk);
    var after := if s == Downloaded then present + {targets[i].filename} else present;
    DownloadsStep(targets, i, present, fetchOk);
    AppendAssoc(steps, [s], DownloadsFrom(targets, i + 1, after, fetchOk));
    NamesWrittenStep(targets, steps, s);
  }

  /** No file is written over: a download happens only for a name not yet
      present, so no two downloads share a name. */
  predicate WritesOnce(r: seq<Step>, targets: seq<Entry>, k: nat, present: set<string>)
    requires |r| == |targets| - k
  {
    (forall j :: 0 <= j < |r| && r[j] == Downloaded ==> targets[k + j].filename !in present) &&
    (forall j, j' :: 0 <= j < j' < |r| && r[j] == Downloaded && r[j'] == Downloaded ==>
       targets[k + j].filename != targets[k + j'].filename)
  }

  lemma DownloadsWriteOnce(targets: seq<Entry>, k: nat, present: set<string>, fetchOk: string -> bool)
    requires k <= |targets|
    ensures WritesOnce(DownloadsFrom(targets, k, present, fetchOk), targets, k, present)
  {
    DownloadsFresh(targets, k, present, fetchOk);
    DownloadsDistinct(targets, k, present, fetchOk);
  }

  /** A download happens only for a name not present at the start. */
  lemma {:induction false} DownloadsFresh(targets: seq<Entry>, k: nat, present: set<string>, fetchOk: string -> bool)
    requires k <= |targets|
    ensures var r := DownloadsFrom(targets, k, present, fetchOk);
            forall j :: 0 <= j < |r| && r[j] == Downloaded ==> targets[k + j].filename !in present
    decreases |targets| - k
  {
    if k < |targets| {
      var t := targets[k];
      var s := StepOf(t, present, fetchOk);
      var p' := if s == Downloaded then present + {t.filename} else present;
      var r := DownloadsFrom(targets, k, present, fetchOk);
      var rest := DownloadsFrom(targets, k + 1, p', fetchOk);
      DownloadsStep(targets, k, present, fetchOk);
      DownloadsFresh(targets, k + 1, p', fetchOk);
      forall j | 0 < j < |r| && r[j] == Downloaded
        ensures targets[k + j].filename !in present
      {
        assert rest[j - 1] == Downloaded && targets[(k + 1) + (j - 1)] == targets[k + j];
      }
    }
  }

  /** No two downloads share a name. */
  lemma {:induction false} DownloadsDistinct(targets: seq<Entry>, k: nat, present: set<string>, fetchOk: string -> bool)
    requires k <= |targets|
    ensures var r := DownloadsFrom(targets, k, present, fetchOk);
            forall j, j' :: 0 <= j < j' < |r| && r[j] == Downloaded && r[j'] == Downloaded ==>
              targets[k + j].filename != targets[k + j'].filename
    decreases |targets| - k
  {
    if k < |targets| {
      var t := targets[k];
      var s := StepOf(t, present, fetchOk);
      var p' := if s == Downloaded then present + {t.filename} else present;
      var r := DownloadsFrom(targets, k, present, fetchOk);
      var rest := DownloadsFrom(targets, k + 1, p', fetchOk);
      DownloadsStep(targets, k, present, fetchOk);
      DownloadsDistinct(targets, k + 1, p', fetchOk);
      DownloadsFresh(targets, k + 1, p', fetchOk);
      forall j, j' | 0 <= j < j' < |r| && r[j] == Downloaded && r[j'] == Downloaded
        ensures targets[k + j].filename != targets[k + j'].filename
      {
        assert rest[j' - 1] == Downloaded && targets[(k + 1) + (j' - 1)] == targets[k + j'];
        if j > 0 {
          assert rest[j - 1] == Downloaded && targets[(k + 1) + (j - 1)] == targets[k + j];
        } else {
          assert s == Downloaded && t.filename in p';
          assert targets[k + j'].filename !in p';
        }
      }
    }
  }

  /** An earlier target among the first `j` outcomes was downloaded under
      `name`. */
  ghost predicate WrittenBefore(r: seq<Step>, targets: seq<Entry>, k: nat, j: nat, name: string)
    requires |r| == |targets| - k && j <= |r|
  {
    exists j' :: 0 <= j' < j && r[j'] == Downloaded && targets[k + j'].filename == name
  }

  /** A target is passed over for want of a URL exactly when it has none,
      and as already there exactly when it has one and its name existed at
      the start or was written by an earlier download; every other target
      with a URL is fetched, downloaded or failed. */
  lemma {:induction false} DownloadsSkipOnly(targets: seq<Entry>, k: nat, present: set<string>, fetchOk: string -> bool)
    requires k <= |targets|
    ensures forall j :: 0 <= j < |DownloadsFrom(targets, k, present, fetchOk)| ==>
              (DownloadsFrom(targets, k, present, fetchOk)[j] == NoUrl <==> targets[k + j].url == "")
    ensures var r := DownloadsFrom(targets, k, present, fetchOk);
            forall j :: 0 <= j < |r| ==>
              (r[j] == AlreadyThere <==>
                 targets[k + j].url != "" &&
                 (targets[k + j].filename in present || WrittenBefore(r, targets, k, j, targets[k + j].filename)))
  {
    var r := DownloadsFrom(targets, k, present, fetchOk);
    forall j | 0 <= j < |r|
      ensures r[j] == NoUrl <==> targets[k + j].url == ""
      ensures r[j] == AlreadyThere <==>
                targets[k + j].url != "" &&
                (targets[k + j].filename in present || WrittenBefore(r, targets, k, j, targets[k + j].filename))
    {
      SkipAt(targets, k, present, fetchOk, j);
    }
  }

  /** The outcome of the `j`-th target from `k`, as `DownloadsSkipOnly`
      states it. */
  lemma {:induction false} SkipAt(targets: seq<Entry>, k: nat, present: set<string>, fetchOk: string -> bool, j: nat)
    requires k + j < |targets|
    ensures var r := DownloadsFrom(targets, k, present, fetchOk);
            (r[j] == NoUrl <==> targets[k + j].url == "") &&
            (r[j] == AlreadyThere <==>
               targets[k + j].url != "" &&
               (targets[k + j].filename in present || WrittenBefore(r, targets, k, j, targets[k + j].filename)))
    decreases j
  {
    var t := targets[k];
    var s := StepOf(t, present, fetchOk);
    var p' := if s == Downloaded then present + {t.filename} else present;
    DownloadsStep(targets, k, present, fetchOk);
    var r := DownloadsFrom(targets, k, present, fetchOk);
    var rest := DownloadsFrom(targets, k + 1, p', fetchOk);
    assert r == [s] + rest;
    var name := targets[k + j].filename;
    if j == 0 {
      assert !WrittenBefore(r, targets, k, j, name);
    } else {
      SkipAt(targets, k + 1, p', fetchOk, j - 1);
      assert r[j] == rest[j - 1] && targets[k + j] == targets[(k + 1) + (j - 1)];
      WrittenBeforeShift(r, rest, targets, k, j, name, p', present);
    }
  }

  /** How `WrittenBefore` moves past the first target. */
  lemma WrittenBeforeShift(r: seq<Step>, rest: seq<Step>, targets: seq<Entry>, k: nat, j: nat, name: string,
                           p': set<string>, present: set<string>)
    requires k < |targets| && |r| == |targets| - k && 0 < j < |r| && r[1..] == rest
    requires p' == if r[0] == Downloaded then present + {targets[k].filename} else present
    ensures (name in p' || WrittenBefore(rest, targets, k + 1, j - 1, name)) <==>
            (name in present || WrittenBefore(r, targets, k, j, name))
  {
    if WrittenBefore(rest, targets, k + 1, j - 1, name) {
      var j'' :| 0 <= j'' < j - 1 && rest[j''] == Downloaded && targets[k + 1 + j''].filename == name;
      assert r[j'' + 1] == rest[j''];
    }
    if WrittenBefore(r, targets, k, j, name) {
      var j' :| 0 <= j' < j && r[j'] == Downloaded && targets[k + j'].filename == name;
      if j' > 0 {
        assert rest[j' - 1] == r[j'] && targets[(k + 1) + (j' - 1)] == targets[k + j'];
      }
    }
  }

  /** The file names of the targets whose outcome is a download. */
  function NamesWritten(targets: seq<Entry>, steps: seq<Step>): set<string>
    requires |steps| <= |targets|
  {
    if steps == [] then {}
    else
      var n := |steps| - 1;
      NamesWritten(targets, steps[..n]) + (if steps[n] == Downloaded then {targets[n].filename} else {})
  }

  lemma NamesWrittenStep(targets: seq<Entry>, steps: seq<Step>, step: Step)
    requires |steps| < |targets|
    ensures NamesWritten(targets, steps + [step]) ==
            NamesWritten(targets, steps) + (if step == Downloaded then {targets[|steps|].filename} else {})
  {
    assert (steps + [step])[..|steps|] == steps;
  }

  /** `download_resources(resources, max_files)`: the outcomes, and the file
      names present in the download directory afterwards. */
  method DownloadResources(resources: seq<Entry>, maxFiles: int, existing: set<string>, fetchOk: string -> bool)
    returns (steps: seq<Step>, present: set<string>)
    ensures steps == DownloadsFrom(Targets(resources, maxFiles), 0, existing, fetchOk)
    ensures present == existing + NamesWritten(Targets(resources, maxFiles), steps)
  {
    var targets := SliceTo(Filter(resources, IsTarget), maxFiles);
    steps := [];
    present := existing;
    if targets == [] {
      return;
    }
    ghost var all := DownloadsFrom(targets, 0, existing, fetchOk);
    for i := 0 to |targets|
      invariant |steps| == i
      invariant present == existing + NamesWritten(targets, steps)
      invariant steps + DownloadsFrom(targets, i, present, fetchOk) == all
    {
      var t := targets[i];
      DownloadsAdvance(targets, i, present, fetchOk, steps);
      ghost var before := present;
      var step;
      if t.url == "" {
        step := NoUrl;
      } else if t.filename in present {
        step := AlreadyThere;
      } else if fetchOk(t.url) {
        step := Downloaded;
        present := present + {t.filename};
      } else {
        step := Failed;
      }
      assert step == StepOf(t, before, fetchOk);
      assert present == if step == Downloaded then before + {t.filename} else before;
      steps := steps + [step];
    }
  }
}
