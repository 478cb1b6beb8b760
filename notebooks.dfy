/** The notebook finder: a depth-limited walk over GitHub contents listings
    collecting `.ipynb` files, the rewrite of a GitHub page url into its raw
    url, and the download loop that takes the smallest notebooks first. The
    contents API is given as a map from listing url to the items of a listing
    that answered with status 200. */
module Notebooks {
  import opened Text
  import opened Collect

  /** One entry of a contents listing; a missing field is the empty string
      (or size 0). */
  datatype Item = Item(kind: string, name: string, downloadUrl: string, path: string, size: nat, url: string)

  datatype Notebook = Notebook(name: string, url: string, repo: string, path: string, size: nat)

  type Api = map<string, seq<Item>>

  const GitHubHost := "github.com"
  const UserContent := "githubusercontent.com"
  const RawHost := "raw." + UserContent

  /** `convert_to_raw_url` */
  function ConvertToRawUrl(githubUrl: string): (r: string)
    ensures !Contains(r, GitHubHost)
  {
    var raw := ReplaceAll(githubUrl, GitHubHost, RawHost);
    NoGitHubHostAfterRewrite(githubUrl);
    var r := ReplaceAll(raw, "/blob/", "/");
    if Contains(r, GitHubHost) then
      ReplaceByCharAddsNothing(raw, "/blob/", '/', GitHubHost);
      r
    else r
  }

  /** The page url of a file on GitHub becomes its raw url: the host
      becomes `raw.githubusercontent.com` and the `/blob/` between the
      repository and the branch becomes `/`. */
  lemma ConvertBlobUrl(owner: string, repo: string, rest: string)
    requires Avoids(owner, '/') && Avoids(repo, '/') && owner != "blob" && repo != "blob"
    requires !Contains(BlobTail(owner, repo, rest), GitHubHost)
    requires !Contains(rest, "/blob/")
    ensures ConvertToRawUrl("https://" + (GitHubHost + BlobTail(owner, repo, rest))) ==
              "https://" + (RawHost + ("/" + (owner + ("/" + (repo + ("/" + rest))))))
  {
    HostStage(owner, repo, rest);
    BlobStage(owner, repo, rest);
  }

  /** The first rewrite, of the host. */
  lemma HostStage(owner: string, repo: string, rest: string)
    requires !Contains(BlobTail(owner, repo, rest), GitHubHost)
    ensures ReplaceAll("https://" + (GitHubHost + BlobTail(owner, repo, rest)), GitHubHost, RawHost) ==
              "https:" + ("/" + ("/" + (RawHost + BlobTail(owner, repo, rest))))
  {
    var tail := BlobTail(owner, repo, rest);
    ReplaceAllAfterAvoiding("https://", GitHubHost + tail, GitHubHost, RawHost);
    ReplaceAllLeading(tail, GitHubHost, RawHost);
    ReplaceAllAbsent(tail, GitHubHost, RawHost);
    SchemeSplit(RawHost + tail);
  }

  /** The second rewrite, of `/blob/`. */
  lemma BlobStage(owner: string, repo: string, rest: string)
    requires Avoids(owner, '/') && Avoids(repo, '/') && owner != "blob" && repo != "blob"
    requires !Contains(rest, "/blob/")
    ensures ReplaceAll("https:" + ("/" + ("/" + (RawHost + BlobTail(owner, repo, rest)))), "/blob/", "/") ==
              "https://" + (RawHost + ("/" + (owner + ("/" + (repo + ("/" + rest))))))
  {
    var tail := BlobTail(owner, repo, rest);
    ReplaceAllAfterAvoiding("https:", "/" + ("/" + (RawHost + tail)), "/blob/", "/");
    SkipSlash("/" + (RawHost + tail));
    SkipSlash(RawHost + tail);
    RawHostAvoidsSlash();
    ReplaceAllAfterAvoiding(RawHost, tail, "/blob/", "/");
    BlobTailRewrite(owner, repo, rest);
    SchemeSplit(RawHost + ("/" + (owner + ("/" + (repo + ("/" + rest))))));
  }

  lemma RawHostAvoidsSlash()
    ensures Avoids(RawHost, '/')
  {
    assert RawHost == "raw.githubusercontent.com";
  }

  lemma SchemeSplit(x: string)
    ensures "https://" + x == "https:" + ("/" + ("/" + x))
  {
  }

  /** A `/` not followed by `b` is copied as it is. */
  lemma SkipSlash(v: string)
    requires v != [] && v[0] != 'b'
    ensures ReplaceAll("/" + v, "/blob/", "/") == "/" + ReplaceAll(v, "/blob/", "/")
  {
    var s := "/" + v;
    assert s[1] != 'b';
    assert s[1..] == v;
  }

  /** The part of a GitHub page url after the host. */
  function BlobTail(owner: string, repo: string, rest: string): string
  {
    "/" + (owner + ("/" + (repo + ("/blob/" + rest))))
  }

  /** `/<owner>/<repo>/blob/<rest>` loses its `blob`. */
  lemma BlobTailRewrite(owner: string, repo: string, rest: string)
    requires Avoids(owner, '/') && Avoids(repo, '/') && owner != "blob" && repo != "blob"
    requires !Contains(rest, "/blob/")
    ensures ReplaceAll(BlobTail(owner, repo, rest), "/blob/", "/") == "/" + (owner + ("/" + (repo + ("/" + rest))))
  {
    var a := "/blob/" + rest;
    ReplaceAllLeading(rest, "/blob/", "/");
    ReplaceAllAbsent(rest, "/blob/", "/");
    var b := repo + a;
    ReplaceAllAfterAvoiding(repo, a, "/blob/", "/");
    var c := "/" + b;
    SegmentRewrite(repo, a);
    var d := owner + c;
    ReplaceAllAfterAvoiding(owner, c, "/blob/", "/");
    SegmentRewrite(owner, c);
  }

  /** `/<w>/…` with `w` free of `/` and not `blob` does not start `/blob/`. */
  lemma SegmentRewrite(w: string, v: string)
    requires Avoids(w, '/') && w != "blob" && v != [] && v[0] == '/'
    ensures ReplaceAll("/" + (w + v), "/blob/", "/") == "/" + ReplaceAll(w + v, "/blob/", "/")
  {
    var s := "/" + (w + v);
    if |w| >= 5 {
      assert s[5] == w[4] != '/';
    } else if |w| < 4 {
      assert s[1 + |w|] == '/';
    } else {
      assert s[1..5] == w;
    }
    assert !("/blob/" <= s);
    assert s[1..] == w + v;
  }

  /** The raw host adds no occurrence of the GitHub host. */
  lemma RawHostAddsNothing(x: string)
    ensures Contains(RawHost + x, GitHubHost) <==> Contains(x, GitHubHost)
  {
    var y := UserContent + x;
    assert RawHost + x == "raw." + y;
    ContainsAfterAvoiding("raw.", y, GitHubHost);
    SkipFirstOfUserContent(x);
    ContainsAfterAvoiding(UserContent[1..], x, GitHubHost);
  }

  /** `githubusercontent` does not start with `github.com`. */
  lemma SkipFirstOfUserContent(x: string)
    ensures Contains(UserContent + x, GitHubHost) <==> Contains(UserContent[1..] + x, GitHubHost)
    ensures Avoids(UserContent[1..], GitHubHost[0])
  {
    var y := UserContent + x;
    assert y[6] != GitHubHost[6];
    assert y[1..] == UserContent[1..] + x;
  }

  /** After the host rewrite no `github.com` is left. */
  lemma {:induction false} NoGitHubHostAfterRewrite(s: string)
    ensures !Contains(ReplaceAll(s, GitHubHost, RawHost), GitHubHost)
    decreases |s|
  {
    var r := ReplaceAll(s, GitHubHost, RawHost);
    if s != [] {
      if GitHubHost <= s {
        NoGitHubHostAfterRewrite(s[|GitHubHost|..]);
        RawHostAddsNothing(ReplaceAll(s[|GitHubHost|..], GitHubHost, RawHost));
      } else {
        NoGitHubHostAfterRewrite(s[1..]);
        if GitHubHost <= r {
          ReplaceAllKeepsPrefix(s, GitHubHost, RawHost, GitHubHost);
        }
        assert r[1..] == ReplaceAll(s[1..], GitHubHost, RawHost);
      }
    }
  }

  /** A url holding neither `github.com` nor `/blob/` is returned as it is. */
  lemma ConvertToRawUrlUnchanged(s: string)
    requires !Contains(s, GitHubHost) && !Contains(s, "/blob/")
    ensures ConvertToRawUrl(s) == s
  {
    ReplaceAllAbsent(s, GitHubHost, RawHost);
    ReplaceAllAbsent(s, "/blob/", "/");
  }

  predicate IsNotebookItem(item: Item)
  {
    item.kind == "file" && EndsWith(item.name, ".ipynb")
  }

  /** `any(keyword in dir_name for keyword in [...])` on the lowered name. */
  predicate RelevantDir(name: string)
  {
    var n := Lower(name);
    Contains(n, "notebook") || Contains(n, "example") || Contains(n, "tutorial") || Contains(n, "demo")
  }

  function NotebookOf(item: Item, org: string, repo: string): Notebook
  {
    Notebook(item.name, item.downloadUrl, org + "/" + repo, item.path, item.size)
  }

  /** A directory item the search at `depth` descends into. */
  predicate Descends(item: Item, depth: int, maxDepth: int)
  {
    item.kind == "dir" && depth < maxDepth && RelevantDir(item.name) && item.url != ""
  }

  /** The search started at `contentsUrl` and `depth` fetches listing `u`:
      `u` is that listing, or is reached from it through a directory item it
      descends into, one level deeper each time, never past `maxDepth`. */
  ghost predicate Reaches(api: Api, contentsUrl: string, depth: int, maxDepth: int, u: string)
    decreases maxDepth - depth
  {
    depth <= maxDepth && contentsUrl in api &&
    (u == contentsUrl ||
     exists j :: 0 <= j < |api[contentsUrl]| && Descends(api[contentsUrl][j], depth, maxDepth) &&
                 Reaches(api, api[contentsUrl][j].url, depth + 1, maxDepth, u))
  }

  /** Whether `n` is the record of a notebook item of a listing the search
      from `contentsUrl` at `depth` reaches. */
  ghost predicate FromApi(api: Api, contentsUrl: string, depth: int, maxDepth: int, n: Notebook, org: string,
                          repo: string)
  {
    exists u, j :: Reaches(api, contentsUrl, depth, maxDepth, u) && u in api && 0 <= j < |api[u]| &&
                   IsNotebookItem(api[u][j]) && n == NotebookOf(api[u][j], org, repo)
  }

  /** What a descended directory's search finds is found by its parent's. */
  lemma FromApiLift(api: Api, contentsUrl: string, depth: int, maxDepth: int, i: nat, n: Notebook, org: string,
                    repo: string)
    requires depth <= maxDepth && contentsUrl in api && i < |api[contentsUrl]|
    requires Descends(api[contentsUrl][i], depth, maxDepth)
    requires FromApi(api, api[contentsUrl][i].url, depth + 1, maxDepth, n, org, repo)
    ensures FromApi(api, contentsUrl, depth, maxDepth, n, org, repo)
  {
    var u, j :| Reaches(api, api[contentsUrl][i].url, depth + 1, maxDepth, u) && u in api && 0 <= j < |api[u]| &&
                IsNotebookItem(api[u][j]) && n == NotebookOf(api[u][j], org, repo);
    assert Reaches(api, contentsUrl, depth, maxDepth, u);
  }

  /** What `search_for_notebooks(contents_url, ..., depth, max_depth)` appends
      to its list. */
  function Searched(api: Api, contentsUrl: string, org: string, repo: string, depth: int, maxDepth: int)
    : (r: seq<Notebook>)
    ensures depth > maxDepth ==> r == []
    ensures forall k :: 0 <= k < |r| ==> EndsWith(r[k].name, ".ipynb") && r[k].repo == org + "/" + repo
    decreases maxDepth - depth + 1, 1, 0
  {
    if depth > maxDepth || contentsUrl !in api then [] else Listed(api, api[contentsUrl], org, repo, depth, maxDepth)
  }

  /** What the loop over the items of one listing at `depth` appends. */
  function Listed(api: Api, items: seq<Item>, org: string, repo: string, depth: int, maxDepth: int)
    : (r: seq<Notebook>)
    requires depth <= maxDepth
    ensures forall k :: 0 <= k < |r| ==> EndsWith(r[k].name, ".ipynb") && r[k].repo == org + "/" + repo
    decreases maxDepth - depth + 1, 0, |items|
  {
    if items == [] then []
    else
      var n := |items| - 1;
      Listed(api, items[..n], org, repo, depth, maxDepth) + ItemFound(api, items[n], org, repo, depth, maxDepth)
  }

  function ItemFound(api: Api, item: Item, org: string, repo: string, depth: int, maxDepth: int)
    : (r: seq<Notebook>)
    requires depth <= maxDepth
    ensures forall k :: 0 <= k < |r| ==> EndsWith(r[k].name, ".ipynb") && r[k].repo == org + "/" + repo
    decreases maxDepth - depth + 1, 0, 0
  {
    if IsNotebookItem(item) then [NotebookOf(item, org, repo)]
    else if Descends(item, depth, maxDepth) then
      Searched(api, item.url, org, repo, depth + 1, maxDepth)
    else []
  }

  /** Every notebook found is the record of a `.ipynb` file item of a
      listing the search reaches. */
  lemma {:induction false} SearchedFromApi(api: Api, contentsUrl: string, org: string, repo: string, depth: int,
                                           maxDepth: int)
    ensures forall k :: 0 <= k < |Searched(api, contentsUrl, org, repo, depth, maxDepth)| ==>
              FromApi(api, contentsUrl, depth, maxDepth, Searched(api, contentsUrl, org, repo, depth, maxDepth)[k],
                      org, repo)
    decreases maxDepth - depth + 1, 1, 0
  {
    if depth <= maxDepth && contentsUrl in api {
      ListedFromApi(api, api[contentsUrl], org, repo, depth, maxDepth, contentsUrl, |api[contentsUrl]|);
    }
  }

  lemma {:induction false} ListedFromApi(api: Api, items: seq<Item>, org: string, repo: string, depth: int,
                                         maxDepth: int, u: string, m: nat)
    requires depth <= maxDepth && u in api && m <= |api[u]| && items == api[u][..m]
    ensures forall k :: 0 <= k < |Listed(api, items, org, repo, depth, maxDepth)| ==>
              FromApi(api, u, depth, maxDepth, Listed(api, items, org, repo, depth, maxDepth)[k], org, repo)
    decreases maxDepth - depth + 1, 0, |items|
  {
    if items != [] {
      var n := |items| - 1;
      assert items[..n] == api[u][..n];
      ListedFromApi(api, items[..n], org, repo, depth, maxDepth, u, n);
      var item := items[n];
      assert item == api[u][n];
      var prev := Listed(api, items[..n], org, repo, depth, maxDepth);
      var here := ItemFound(api, item, org, repo, depth, maxDepth);
      if IsNotebookItem(item) {
        assert here == [NotebookOf(item, org, repo)];
        assert Reaches(api, u, depth, maxDepth, u);
        assert FromApi(api, u, depth, maxDepth, here[0], org, repo);
      } else if Descends(item, depth, maxDepth) {
        SearchedFromApi(api, item.url, org, repo, depth + 1, maxDepth);
        assert here == Searched(api, item.url, org, repo, depth + 1, maxDepth);
        forall k | 0 <= k < |here|
          ensures FromApi(api, u, depth, maxDepth, here[k], org, repo)
        {
          FromApiLift(api, u, depth, maxDepth, n, here[k], org, repo);
        }
      } else {
        assert here == [];
      }
      assert forall k :: 0 <= k < |here| ==> FromApi(api, u, depth, maxDepth, here[k], org, repo);
      assert Listed(api, items, org, repo, depth, maxDepth) == prev + here;
    }
  }

  /** Every `.ipynb` file item of a listing the search reaches is found. */
  lemma {:induction false} SearchedComplete(api: Api, contentsUrl: string, org: string, repo: string, depth: int,
                                            maxDepth: int, u: string, j: nat)
    requires Reaches(api, contentsUrl, depth, maxDepth, u) && u in api && j < |api[u]| && IsNotebookItem(api[u][j])
    ensures NotebookOf(api[u][j], org, repo) in Searched(api, contentsUrl, org, repo, depth, maxDepth)
    decreases maxDepth - depth
  {
    var items := api[contentsUrl];
    if u == contentsUrl {
      assert ItemFound(api, items[j], org, repo, depth, maxDepth) == [NotebookOf(items[j], org, repo)];
      ListedHas(api, items, org, repo, depth, maxDepth, j, NotebookOf(items[j], org, repo));
    } else {
      var i :| 0 <= i < |items| && Descends(items[i], depth, maxDepth) &&
               Reaches(api, items[i].url, depth + 1, maxDepth, u);
      SearchedComplete(api, items[i].url, org, repo, depth + 1, maxDepth, u, j);
      assert ItemFound(api, items[i], org, repo, depth, maxDepth) ==
               Searched(api, items[i].url, org, repo, depth + 1, maxDepth);
      ListedHas(api, items, org, repo, depth, maxDepth, i, NotebookOf(api[u][j], org, repo));
    }
  }

  /** What one item of a listing finds is found by the listing. */
  lemma {:induction false} ListedHas(api: Api, items: seq<Item>, org: string, repo: string, depth: int, maxDepth: int,
                                     i: nat, n: Notebook)
    requires depth <= maxDepth && i < |items| && n in ItemFound(api, items[i], org, repo, depth, maxDepth)
    ensures n in Listed(api, items, org, repo, depth, maxDepth)
    decreases |items|
  {
    var m := |items| - 1;
    if i < m {
      assert items[..m][i] == items[i];
      ListedHas(api, items[..m], org, repo, depth, maxDepth, i, n);
    }
  }

  /** `search_for_notebooks`: `found` is the caller's list, returned with the
      notebooks of this listing and its relevant sub-directories appended. */
  method SearchForNotebooks(api: Api, contentsUrl: string, found: seq<Notebook>, org: string, repo: string,
                            path: string, depth: int, maxDepth: int)
    returns (found': seq<Notebook>)
    ensures found' == found + Searched(api, contentsUrl, org, repo, depth, maxDepth)
    decreases maxDepth - depth + 1
  {
    found' := found;
    if depth > maxDepth || contentsUrl !in api {
      return;
    }
    var items := api[contentsUrl];
    for i := 0 to |items|
      invariant found' == found + Listed(api, items[..i], org, repo, depth, maxDepth)
    {
      ListedStep(api, items, i, org, repo, depth, maxDepth);
      var item := items[i];
      ghost var here := ItemFound(api, item, org, repo, depth, maxDepth);
      AppendAssoc(found, Listed(api, items[..i], org, repo, depth, maxDepth), here);
      if IsNotebookItem(item) {
        assert here == [NotebookOf(item, org, repo)];
        found' := found' + [NotebookOf(item, org, repo)];
      } else if item.kind == "dir" && depth < maxDepth {
        if RelevantDir(item.name) && item.url != "" {
          assert here == Searched(api, item.url, org, repo, depth + 1, maxDepth);
          found' := SearchForNotebooks(api, item.url, found', org, repo, item.path, depth + 1, maxDepth);
        } else {
          assert here == [];
        }
      } else {
        assert here == [];
      }
    }
    assert items[..|items|] == items;
  }

  lemma ListedStep(api: Api, items: seq<Item>, i: nat, org: string, repo: string, depth: int, maxDepth: int)
    requires i < |items| && depth <= maxDepth
    ensures Listed(api, items[..i + 1], org, repo, depth, maxDepth) ==
              Listed(api, items[..i], org, repo, depth, maxDepth) + ItemFound(api, items[i], org, repo, depth, maxDepth)
  {
    assert items[..i + 1][..i] == items[..i];
  }

  // ---- the de-duplication in find_copernicus_notebooks ----

  function NotebookUrl(n: Notebook): string
  {
    n.url
  }

  /** Some notebook of `ns` has url `url`. */
  predicate UrlListed(ns: seq<Notebook>, url: string)
  {
    exists j :: 0 <= j < |ns| && ns[j].url == url
  }

  /** `for nb in found: if nb['url'] not in seen_urls: ...`: the first
      notebook per url, in the order found; `idx` says where each came from. */
  method UniqueNotebooks(found: seq<Notebook>) returns (unique: seq<Notebook>, ghost idx: seq<nat>)
    ensures DistinctKeys(unique, NotebookUrl)
    ensures |idx| == |unique|
    ensures forall j :: 0 <= j < |unique| ==>
              idx[j] < |found| && unique[j] == found[idx[j]] &&
              forall i :: 0 <= i < idx[j] ==> found[i].url != unique[j].url
    ensures forall j, j' :: 0 <= j < j' < |unique| ==> idx[j] < idx[j']
    ensures forall i :: 0 <= i < |found| ==> UrlListed(unique, found[i].url)
    ensures unique == FirstOfEach(found, NotebookUrl, KeepAll)
  {
    unique, idx := DedupByKey(found, NotebookUrl, KeepAll);
    forall i | 0 <= i < |found|
      ensures UrlListed(unique, found[i].url)
    {
      assert KeepAll(found[i]);
      var j :| 0 <= j < |unique| && NotebookUrl(unique[j]) == NotebookUrl(found[i]);
      assert unique[j].url == found[i].url;
    }
  }

  // ---- download_notebooks ----

  /** Each notebook is no larger than the next. */
  predicate SortedBySize(s: seq<Notebook>)
  {
    forall i :: 0 <= i < |s| - 1 ==> s[i].size <= s[i + 1].size
  }

  /** Insert `x` after every element no larger than it. */
  function InsertBySize(x: Notebook, s: seq<Notebook>): (r: seq<Notebook>)
    requires SortedBySize(s)
    ensures SortedBySize(r) && |r| == |s| + 1
    ensures r[0] == x || (s != [] && r[0] == s[0])
  {
    if s == [] || x.size < s[0].size then [x] + s
    else
      var t := InsertBySize(x, s[1..]);
      assert s[0].size <= t[0].size;
      [s[0]] + t
  }

  /** `sorted(notebooks, key=lambda x: x.get('size', 0))`, a stable sort. */
  function SortBySize(s: seq<Notebook>): (r: seq<Notebook>)
    ensures SortedBySize(r) && |r| == |s|
  {
    if s == [] then []
    else
      var n := |s| - 1;
      InsertBySize(s[n], SortBySize(s[..n]))
  }

  /** The notebooks of size `v`, in order. */
  function OfSize(s: seq<Notebook>, v: nat): seq<Notebook>
  {
    if s == [] then [] else (if s[0].size == v then [s[0]] else []) + OfSize(s[1..], v)
  }

  lemma {:induction false} OfSizeAppend(a: seq<Notebook>, b: seq<Notebook>, v: nat)
    ensures OfSize(a + b, v) == OfSize(a, v) + OfSize(b, v)
    decreases |a|
  {
    if a == [] {
      assert a + b == b;
    } else {
      var h := if a[0].size == v then [a[0]] else [];
      SplitFirst(a, b);
      assert OfSize(a + b, v) == h + OfSize(a[1..] + b, v);
      OfSizeAppend(a[1..], b, v);
      AppendAssoc(h, OfSize(a[1..], v), OfSize(b, v));
    }
  }

  lemma {:induction false} OfSizeInsert(x: Notebook, s: seq<Notebook>, v: nat)
    requires SortedBySize(s)
    ensures OfSize(InsertBySize(x, s), v) == OfSize(s, v) + (if x.size == v then [x] else [])
    decreases |s|
  {
    var r := InsertBySize(x, s);
    var e := if x.size == v then [x] else [];
    if s == [] || x.size < s[0].size {
      assert r[1..] == s;
      assert OfSize(r, v) == e + OfSize(s, v);
      if x.size == v {
        OfSizeAbove(s, v);
      }
    } else {
      var t := InsertBySize(x, s[1..]);
      var h := if s[0].size == v then [s[0]] else [];
      assert r[0] == s[0] && r[1..] == t;
      OfSizeInsert(x, s[1..], v);
      assert OfSize(r, v) == h + (OfSize(s[1..], v) + e);
      AppendAssoc(h, OfSize(s[1..], v), e);
    }
  }

  /** A sorted sequence starting above `v` has nothing of size `v`. */
  lemma {:induction false} OfSizeAbove(s: seq<Notebook>, v: nat)
    requires SortedBySize(s) && (s == [] || v < s[0].size)
    ensures OfSize(s, v) == []
    decreases |s|
  {
    if s != [] {
      OfSizeAbove(s[1..], v);
    }
  }

  /** The sort is stable: the notebooks of each size keep their order. */
  lemma {:induction false} SortBySizeStable(s: seq<Notebook>, v: nat)
    ensures OfSize(SortBySize(s), v) == OfSize(s, v)
    decreases |s|
  {
    if s != [] {
      var n := |s| - 1;
      var sorted := SortBySize(s[..n]);
      SortBySizeStable(s[..n], v);
      OfSizeInsert(s[n], sorted, v);
      assert SortBySize(s) == InsertBySize(s[n], sorted);
      OfSizeAppend(s[..n], [s[n]], v);
      SplitLast(s);
      assert OfSize(s, v) == OfSize(s[..n], v) + OfSize([s[n]], v);
      var last := if s[n].size == v then [s[n]] else [];
      assert OfSize([s[n]], v) == last;
      assert OfSize(SortBySize(s), v) == OfSize(s[..n], v) + last;
    }
  }

  /** `filepath.exists()` for `download_dir / name`: the empty name is the
      directory itself, which exists. */
  predicate Exists(present: set<string>, name: string)
  {
    name == "" || name in present
  }

  /** The download loop over `queue` from `downloaded` successes so far and
      the files `present`; `fetchOk` says which urls answer. Returns the final
      count and files. */
  function Run(queue: seq<Notebook>, maxDownloads: int, downloaded: nat, present: set<string>,
               fetchOk: string -> bool): (r: (nat, set<string>))
    ensures downloaded <= r.0 <= downloaded + |queue|
    ensures downloaded <= maxDownloads ==> r.0 <= maxDownloads
    ensures downloaded > maxDownloads ==> r.0 == downloaded
    ensures present <= r.1 && |r.1| == |present| + (r.0 - downloaded)
    decreases |queue|
  {
    if queue == [] || downloaded >= maxDownloads then (downloaded, present)
    else
      var nb := queue[0];
      if nb.url == "" || Exists(present, nb.name) then Run(queue[1..], maxDownloads, downloaded, present, fetchOk)
      else if fetchOk(nb.url) then Run(queue[1..], maxDownloads, downloaded + 1, present + {nb.name}, fetchOk)
      else Run(queue[1..], maxDownloads, downloaded, present, fetchOk)
  }

  /** Unless the limit was reached, every notebook with a url that answers
      ends up on disk. */
  lemma {:induction false} RunCompleteBelowLimit(queue: seq<Notebook>, maxDownloads: int, downloaded: nat,
                                                 present: set<string>, fetchOk: string -> bool, k: nat)
    requires k < |queue| && queue[k].url != "" && fetchOk(queue[k].url)
    requires Run(queue, maxDownloads, downloaded, present, fetchOk).0 < maxDownloads
    ensures Exists(Run(queue, maxDownloads, downloaded, present, fetchOk).1, queue[k].name)
    decreases |queue|
  {
    var nb := queue[0];
    var d' := if nb.url == "" || Exists(present, nb.name) || !fetchOk(nb.url) then downloaded else downloaded + 1;
    var p' := if nb.url == "" || Exists(present, nb.name) || !fetchOk(nb.url) then present else present + {nb.name};
    assert Run(queue, maxDownloads, downloaded, present, fetchOk) == Run(queue[1..], maxDownloads, d', p', fetchOk);
    if k > 0 {
      RunCompleteBelowLimit(queue[1..], maxDownloads, d', p', fetchOk, k - 1);
    } else {
      assert Exists(p', nb.name);
    }
  }

  /** Every new file is the name of a queued notebook whose url answered. */
  lemma {:induction false} RunNewFiles(queue: seq<Notebook>, maxDownloads: int, downloaded: nat,
                                       present: set<string>, fetchOk: string -> bool, name: string)
    requires name in Run(queue, maxDownloads, downloaded, present, fetchOk).1 && name !in present
    ensures exists k :: 0 <= k < |queue| && queue[k].name == name && queue[k].url != "" && fetchOk(queue[k].url)
    decreases |queue|
  {
    var nb := queue[0];
    if nb.url != "" && !Exists(present, nb.name) && fetchOk(nb.url) && nb.name == name {
      assert queue[0].name == name;
    } else {
      var d' := if nb.url == "" || Exists(present, nb.name) || !fetchOk(nb.url) then downloaded else downloaded + 1;
      var p' := if nb.url == "" || Exists(present, nb.name) || !fetchOk(nb.url) then present else present + {nb.name};
      RunNewFiles(queue[1..], maxDownloads, d', p', fetchOk, name);
      var k :| 0 <= k < |queue[1..]| && queue[1..][k].name == name && queue[1..][k].url != "" && fetchOk(queue[1..][k].url);
      assert queue[k + 1] == queue[1..][k];
    }
  }

  /** `download_notebooks(notebooks, max_downloads)`: `existing` are the files
      already in the download folder. Returns the number downloaded and the
      files present afterwards. */
  method DownloadNotebooks(notebooks: seq<Notebook>, maxDownloads: int, existing: set<string>,
                           fetchOk: string -> bool)
    returns (downloaded: nat, present: set<string>)
    ensures (downloaded, present) == Run(SortBySize(notebooks), maxDownloads, 0, existing, fetchOk)
  {
    downloaded, present := 0, existing;
    if notebooks == [] {
      return;
    }
    var queue := SortBySize(notebooks);
    var i := 0;
    while i < |queue|
      invariant 0 <= i <= |queue|
      invariant Run(queue[i..], maxDownloads, downloaded, present, fetchOk) == Run(queue, maxDownloads, 0, existing, fetchOk)
    {
      if downloaded >= maxDownloads {
        break;
      }
      var nb := queue[i];
      assert queue[i..][1..] == queue[i + 1..];
      i := i + 1;
      if nb.url == "" {
        continue;
      }
      if Exists(present, nb.name) {
        continue;
      }
      if fetchOk(nb.url) {
        present := present + {nb.name};
        downloaded := downloaded + 1;
      }
    }
  }
}
