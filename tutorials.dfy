/** The tutorial scrapers of `scrape_copernicus.py` (the enhanced scraper
    repeats `extract_tutorial_links` and `extract_resources` unchanged):
    tutorial discovery with de-duplication and numbering, resource discovery
    with url and file-name derivation, the retrying download and the
    per-tutorial counters. Pages are given as the link elements the
    BeautifulSoup queries return, in order. */
module Tutorials {
  import opened Wrappers
  import opened Text
  import opened Sanitize
  import opened Collect

  const Site: string := "https://marine.copernicus.eu"

  /** A link element matched by one of the three tutorial patterns: its
      `href` ("" when missing), its `get_text()` and its
      `get_text(strip=True)`. */
  datatype Candidate = Candidate(href: string, text: string, strippedText: string)

  datatype Tutorial = Tutorial(id: nat, title: string, url: string, folder: string)

  /** `link if link.startswith('http') else f"https://marine.copernicus.eu{link}"` */
  function Absolute(link: string): (r: string)
    ensures "http" <= r && EndsWith(r, link)
    ensures "http" <= link ==> r == link
    ensures !("http" <= link) ==> r == Site + link
  {
    if "http" <= link then link else Site + link
  }

  /** Making a link absolute twice changes nothing more. */
  lemma AbsoluteIdempotent(link: string)
    ensures Absolute(Absolute(link)) == Absolute(link)
  {
  }

  /** The title of a tutorial: its stripped text cut at 100 characters, or
      `Tutorial_<id>` when the element has no text, then sanitized. */
  function TitleOf(c: Candidate, id: nat): string
  {
    SanitizeFilename(if c.text != "" then Take(c.strippedText, 100) else "Tutorial_" + NatToString(id))
  }

  /** `f"{tutorial_id:02d}_{title}"` */
  function FolderOf(id: nat, title: string): string
  {
    Pad2(id) + "_" + title
  }

  /** `any(t['url'] == url for t in tutorials)` */
  predicate Listed(tutorials: seq<Tutorial>, url: string)
  {
    exists k :: 0 <= k < |tutorials| && tutorials[k].url == url
  }

  /** The record `extract_tutorial_links` appends for element `c` as
      tutorial `id`. The url resolution and the titling are passed as values
      (`Absolute` and `TitleOf`), so that the bookkeeping can be reasoned
      about apart from the text they produce. */
  function MakeTutorial(id: nat, c: Candidate, resolve: string -> string, titleOf: (Candidate, nat) -> string): Tutorial
  {
    var title := titleOf(c, id);
    Tutorial(id, title, resolve(c.href), FolderOf(id, title))
  }

  /** The tutorials found among `cands`: an element with an href whose
      resolved url is not yet listed becomes the next tutorial. */
  function Discovered(cands: seq<Candidate>, resolve: string -> string, titleOf: (Candidate, nat) -> string): (r: seq<Tutorial>)
    ensures forall k :: 0 <= k < |r| ==> r[k].id == k + 1
  {
    if cands == [] then []
    else
      var n := |cands| - 1;
      var prev := Discovered(cands[..n], resolve, titleOf);
      if cands[n].href != "" && !Listed(prev, resolve(cands[n].href)) then
        prev + [MakeTutorial(|prev| + 1, cands[n], resolve, titleOf)]
      else prev
  }

  predicate DistinctUrls(ts: seq<Tutorial>)
  {
    forall a, b :: 0 <= a < b < |ts| ==> ts[a].url != ts[b].url
  }

  /** No url is listed twice. */
  lemma {:induction false} DiscoveredDistinct(cands: seq<Candidate>, resolve: string -> string,
                                              titleOf: (Candidate, nat) -> string)
    ensures DistinctUrls(Discovered(cands, resolve, titleOf))
    decreases |cands|
  {
    if cands != [] {
      var n := |cands| - 1;
      var prev := Discovered(cands[..n], resolve, titleOf);
      DiscoveredDistinct(cands[..n], resolve, titleOf);
      var r := Discovered(cands, resolve, titleOf);
      var url := resolve(cands[n].href);
      if cands[n].href != "" && !Listed(prev, url) {
        assert r == prev + [MakeTutorial(|prev| + 1, cands[n], resolve, titleOf)];
        forall a, b | 0 <= a < b < |r|
          ensures r[a].url != r[b].url
        {
          assert r[a] == prev[a];
          if b < |prev| {
            assert r[b] == prev[b];
          } else {
            assert r[b].url == url;
          }
        }
      } else {
        assert r == prev;
      }
    }
  }

  /** A url listed before the last element is still listed after it. */
  lemma {:induction false} ListedGrows(cands: seq<Candidate>, resolve: string -> string, titleOf: (Candidate, nat) -> string,
                    url: string)
    requires cands != [] && Listed(Discovered(cands[..|cands| - 1], resolve, titleOf), url)
    ensures Listed(Discovered(cands, resolve, titleOf), url)
  {
    var prev := Discovered(cands[..|cands| - 1], resolve, titleOf);
    var d := Discovered(cands, resolve, titleOf);
    var k :| 0 <= k < |prev| && prev[k].url == url;
    assert prev <= d;
    assert d[k] == prev[k];
  }

  /** The last element's url is listed once it has been scanned. */
  lemma {:induction false} ListedLast(cands: seq<Candidate>, resolve: string -> string, titleOf: (Candidate, nat) -> string)
    requires cands != [] && cands[|cands| - 1].href != ""
    ensures Listed(Discovered(cands, resolve, titleOf), resolve(cands[|cands| - 1].href))
  {
    var n := |cands| - 1;
    var prev := Discovered(cands[..n], resolve, titleOf);
    var url := resolve(cands[n].href);
    if Listed(prev, url) {
      ListedGrows(cands, resolve, titleOf, url);
    } else {
      var d := Discovered(cands, resolve, titleOf);
      var t := MakeTutorial(|prev| + 1, cands[n], resolve, titleOf);
      assert d == prev + [t];
      assert d[|prev|] == t;
    }
  }

  /** Every element with an href ends up listed under its resolved url. */
  lemma {:induction false} DiscoveredComplete(cands: seq<Candidate>, resolve: string -> string,
                                              titleOf: (Candidate, nat) -> string, i: nat)
    requires i < |cands| && cands[i].href != ""
    ensures Listed(Discovered(cands, resolve, titleOf), resolve(cands[i].href))
    decreases |cands|
  {
    var n := |cands| - 1;
    if i < n {
      assert cands[..n][i] == cands[i];
      DiscoveredComplete(cands[..n], resolve, titleOf, i);
      ListedGrows(cands, resolve, titleOf, resolve(cands[i].href));
    } else {
      ListedLast(cands, resolve, titleOf);
    }
  }

  /** Tutorial `t` is number `k + 1`, made from element `i`, and no element
      before `i` carries its url. */
  predicate MadeFrom(cands: seq<Candidate>, resolve: string -> string, titleOf: (Candidate, nat) -> string,
                     t: Tutorial, k: nat, i: int)
  {
    0 <= i < |cands| && cands[i].href != "" && t == MakeTutorial(k + 1, cands[i], resolve, titleOf) &&
    forall i' :: 0 <= i' < i && cands[i'].href != "" ==> resolve(cands[i'].href) != t.url
  }

  /** Tutorial `k` is made, under number `k + 1`, from the first element
      that carries its url. */
  lemma {:induction false} DiscoveredOrigin(cands: seq<Candidate>, resolve: string -> string,
                                            titleOf: (Candidate, nat) -> string, k: nat)
    requires k < |Discovered(cands, resolve, titleOf)|
    ensures exists i :: MadeFrom(cands, resolve, titleOf, Discovered(cands, resolve, titleOf)[k], k, i)
    decreases |cands|
  {
    var n := |cands| - 1;
    var prev := Discovered(cands[..n], resolve, titleOf);
    var d := Discovered(cands, resolve, titleOf);
    if k < |prev| {
      assert prev <= d;
      assert d[k] == prev[k];
      DiscoveredOrigin(cands[..n], resolve, titleOf, k);
      var i :| MadeFrom(cands[..n], resolve, titleOf, prev[k], k, i);
      assert cands[i] == cands[..n][i];
      forall i' | 0 <= i' < i && cands[i'].href != ""
        ensures resolve(cands[i'].href) != d[k].url
      {
        assert cands[i'] == cands[..n][i'];
      }
      assert MadeFrom(cands, resolve, titleOf, d[k], k, i);
    } else {
      var url := resolve(cands[n].href);
      assert cands[n].href != "" && !Listed(prev, url);
      var t := MakeTutorial(k + 1, cands[n], resolve, titleOf);
      assert d == prev + [t];
      assert d[k] == t;
      forall i' | 0 <= i' < n && cands[i'].href != ""
        ensures resolve(cands[i'].href) != url
      {
        assert cands[i'] == cands[..n][i'];
        DiscoveredComplete(cands[..n], resolve, titleOf, i');
      }
      assert MadeFrom(cands, resolve, titleOf, d[k], k, n);
    }
  }

  /** `extract_tutorial_links` over the elements the three patterns match,
      in the order they are scanned. */
  method ExtractTutorialLinks(cands: seq<Candidate>) returns (tutorials: seq<Tutorial>)
    ensures tutorials == Discovered(cands, Absolute, TitleOf)
  {
    tutorials := [];
    var tutorialId := 1;
    var i := 0;
    while i < |cands|
      invariant 0 <= i <= |cands|
      invariant tutorials == Discovered(cands[..i], Absolute, TitleOf) && tutorialId == |tutorials| + 1
    {
      assert cands[..i + 1][..i] == cands[..i];
      var link := cands[i].href;
      if link != "" {
        link := Absolute(link);
        var title := TitleOf(cands[i], tutorialId);
        if !Listed(tutorials, link) {
          tutorials := tutorials + [Tutorial(tutorialId, title, link, FolderOf(tutorialId, title))];
          tutorialId := tutorialId + 1;
        }
      }
      i := i + 1;
    }
    assert cands[..i] == cands;
  }

  datatype Resource = Resource(url: string, filename: string, kind: string)

  /** The absolute url of a resource link found on the page at `tutorialUrl`. */
  function Resolve(tutorialUrl: string, href: string): (r: string)
    ensures EndsWith(r, href)
    ensures "http" <= href ==> r == href
    ensures !("http" <= href) && "/" <= href ==> r == Site + href
    ensures !("http" <= href) && !("/" <= href) ==> r == tutorialUrl + "/" + href
    ensures "http" <= tutorialUrl ==> "http" <= r
  {
    if "http" <= href then href
    else if "/" <= href then Site + href
    else tutorialUrl + "/" + href
  }

  /** `url.split('/')[-1].split('?')[0] or 'unknown_file'` */
  function FilenameOf(url: string): (r: string)
    ensures r != [] && Avoids(r, '/') && Avoids(r, '?')
    ensures r == "unknown_file" || r <= AfterLast(url, '/')
    ensures var last := AfterLast(url, '/'); last == [] || last[0] == '?' ==> r == "unknown_file"
    ensures var last := AfterLast(url, '/');
      last != [] && last[0] != '?' ==> r <= last && (|r| < |last| ==> last[|r|] == '?')
  {
    var f := BeforeFirst(AfterLast(url, '/'), '?');
    LastPieceFacts(url);
    if f == "" then
      UnknownFileFacts();
      "unknown_file"
    else f
  }

  /** The part of a url's last segment before any '?' holds neither '/'
      nor '?'. */
  lemma LastPieceFacts(url: string)
    ensures var a := AfterLast(url, '/');
      BeforeFirst(a, '?') <= a && Avoids(BeforeFirst(a, '?'), '/') && Avoids(BeforeFirst(a, '?'), '?')
  {
    var a := AfterLast(url, '/');
    AvoidsPrefix(BeforeFirst(a, '?'), a, '/');
  }

  lemma UnknownFileFacts()
    ensures Avoids("unknown_file", '/') && Avoids("unknown_file", '?')
  {
  }

  /** `filename.split('.')[-1] if '.' in filename else 'unknown'` */
  function KindOf(filename: string): (r: string)
    ensures Avoids(r, '.')
    ensures HasChar(filename, '.') ==> EndsWith(filename, "." + r)
    ensures !HasChar(filename, '.') ==> r == "unknown"
  {
    if HasChar(filename, '.') then
      var r := AfterLast(filename, '.');
      assert |r| < |filename|;
      assert filename[|filename| - |r| - 1..] == "." + r;
      r
    else "unknown"
  }

  /** The record `extract_resources` appends for one non-empty href. */
  function Describe(tutorialUrl: string, href: string): Resource
  {
    var url := Resolve(tutorialUrl, href);
    var f := FilenameOf(url);
    Resource(url, f, KindOf(f))
  }

  /** The file name of a resource depends only on its href, not on the page
      it was resolved against. */
  lemma FilenameIgnoresBase(tutorialUrl: string, href: string)
    requires href != ""
    ensures Describe(tutorialUrl, href).filename == FilenameOf(href)
  {
    if "http" <= href {
    } else if "/" <= href {
      AfterLastOfSepLed(Site, href, '/');
    } else {
      assert tutorialUrl + "/" + href == tutorialUrl + ['/'] + href;
      AfterLastAfterSep(tutorialUrl, href, '/');
    }
  }

  /** What a record of `extract_resources` always satisfies: a non-empty
      file name without '/' or '?', a type without '.', and an absolute url
      when the tutorial's own url is one. */
  predicate WellFormed(tutorialUrl: string, r: Resource)
  {
    r.filename != [] && Avoids(r.filename, '/') && Avoids(r.filename, '?') && Avoids(r.kind, '.') &&
    ("http" <= tutorialUrl ==> "http" <= r.url)
  }

  /** The records for `hrefs`, one per non-empty href, in page order. */
  function DescribeAll(tutorialUrl: string, hrefs: seq<string>): seq<Resource>
  {
    if hrefs == [] then []
    else
      var n := |hrefs| - 1;
      DescribeAll(tutorialUrl, hrefs[..n]) + (if hrefs[n] != "" then [Describe(tutorialUrl, hrefs[n])] else [])
  }

  /** One record per non-empty href. */
  lemma {:induction false} DescribeAllCount(tutorialUrl: string, hrefs: seq<string>)
    ensures |DescribeAll(tutorialUrl, hrefs)| == CountOf(hrefs, IsBlank, false)
    decreases |hrefs|
  {
    if hrefs != [] {
      var n := |hrefs| - 1;
      DescribeAllCount(tutorialUrl, hrefs[..n]);
      assert IsBlank(hrefs[n]) == (hrefs[n] == "");
    }
  }

  /** Every record is well formed. */
  lemma {:induction false} DescribeAllWellFormed(tutorialUrl: string, hrefs: seq<string>)
    ensures forall j :: 0 <= j < |DescribeAll(tutorialUrl, hrefs)| ==> WellFormed(tutorialUrl, DescribeAll(tutorialUrl, hrefs)[j])
    decreases |hrefs|
  {
    if hrefs != [] {
      var n := |hrefs| - 1;
      DescribeAllWellFormed(tutorialUrl, hrefs[..n]);
      DescribeWellFormed(tutorialUrl, hrefs[n]);
    }
  }

  lemma DescribeWellFormed(tutorialUrl: string, href: string)
    ensures WellFormed(tutorialUrl, Describe(tutorialUrl, href))
  {
    var url := Resolve(tutorialUrl, href);
    var f := FilenameOf(url);
    assert Avoids(KindOf(f), '.');
  }

  predicate IsBlank(s: string)
  {
    s == ""
  }

  lemma DescribeAllStep(tutorialUrl: string, hrefs: seq<string>, i: nat)
    requires i < |hrefs|
    ensures DescribeAll(tutorialUrl, hrefs[..i + 1]) ==
            DescribeAll(tutorialUrl, hrefs[..i]) + (if hrefs[i] != "" then [Describe(tutorialUrl, hrefs[i])] else [])
  {
    assert hrefs[..i + 1][..i] == hrefs[..i];
  }

  /** `extract_resources` over the links the file-pattern query returns. */
  method ExtractResources(tutorialUrl: string, hrefs: seq<string>) returns (resources: seq<Resource>)
    ensures resources == DescribeAll(tutorialUrl, hrefs)
  {
    resources := [];
    var i := 0;
    while i < |hrefs|
      invariant 0 <= i <= |hrefs|
      invariant resources == DescribeAll(tutorialUrl, hrefs[..i])
    {
      DescribeAllStep(tutorialUrl, hrefs, i);
      var href := hrefs[i];
      if href != "" {
        resources := resources + [Describe(tutorialUrl, href)];
      }
      i := i + 1;
    }
    assert hrefs[..i] == hrefs;
  }

  function Pow2(k: nat): (r: nat)
    ensures r >= 1
  {
    if k == 0 then 1 else 2 * Pow2(k - 1)
  }

  /** The waits `2 ** 0, ..., 2 ** (n - 1)` of the first `n` failed attempts. */
  function Backoff(n: nat): (r: seq<nat>)
    ensures |r| == n
    ensures forall k :: 0 <= k < n ==> r[k] == Pow2(k)
  {
    if n == 0 then [] else Backoff(n - 1) + [Pow2(n - 1)]
  }

  /** `download_file(url, path, retry)`: `attemptOk(k)` says whether the
      `k`-th request and write succeed. Answers whether one did, how many
      requests were made, and the seconds slept between them. */
  method DownloadWithRetry(retry: int, attemptOk: nat -> bool) returns (ok: bool, attempts: nat, waits: seq<nat>)
    ensures ok <==> exists k :: 0 <= k < retry && attemptOk(k)
    ensures retry <= 0 ==> attempts == 0
    ensures retry > 0 ==> 1 <= attempts <= retry
    ensures forall k :: 0 <= k < attempts - 1 ==> !attemptOk(k)
    ensures ok ==> attemptOk(attempts - 1)
    ensures !ok ==> attempts == (if retry > 0 then retry else 0) && forall k :: 0 <= k < attempts ==> !attemptOk(k)
    ensures waits == Backoff(if attempts == 0 then 0 else attempts - 1)
  {
    attempts, waits := 0, [];
    var attempt := 0;
    while attempt < retry
      invariant 0 <= attempt && (retry > 0 ==> attempt < retry) && (retry <= 0 ==> attempt == 0)
      invariant attempts == attempt
      invariant forall k :: 0 <= k < attempt ==> !attemptOk(k)
      invariant waits == Backoff(attempt)
      decreases retry - attempt
    {
      attempts := attempts + 1;
      if attemptOk(attempt) {
        return true, attempts, waits;
      }
      if attempt == retry - 1 {
        return false, attempts, waits;
      }
      waits := waits + [Pow2(attempt)];
      attempt := attempt + 1;
    }
    return false, attempts, waits;
  }

  /** Whether `download_file` with `retry` attempts succeeds for `url`. */
  predicate Fetches(attemptOk: (string, nat) -> bool, url: string, retry: int)
  {
    exists k :: 0 <= k < retry && attemptOk(url, k)
  }

  /** A resource record after `process_tutorial` tried it. */
  datatype Attempted = Attempted(resource: Resource, downloaded: bool, path: Option<string>)

  function Downloaded(a: Attempted): bool
  {
    a.downloaded
  }

  /** The names of the files the listed downloads created. */
  function FileNames(listed: seq<Attempted>): set<string>
  {
    set j | 0 <= j < |listed| && listed[j].downloaded :: listed[j].resource.filename
  }

  lemma FileNamesSnoc(listed: seq<Attempted>, a: Attempted)
    ensures FileNames(listed + [a]) == FileNames(listed) + (if a.downloaded then {a.resource.filename} else {})
  {
    var l := listed + [a];
    forall x
      ensures x in FileNames(l) <==> x in FileNames(listed) + (if a.downloaded then {a.resource.filename} else {})
    {
      if x in FileNames(l) {
        var j :| 0 <= j < |l| && l[j].downloaded && l[j].resource.filename == x;
        if j < |listed| {
          assert listed[j] == l[j];
        }
      }
      if x in FileNames(listed) {
        var j :| 0 <= j < |listed| && listed[j].downloaded && listed[j].resource.filename == x;
        assert l[j] == listed[j];
      }
      if a.downloaded && x == a.resource.filename {
        assert l[|listed|] == a;
      }
    }
  }

  /** The result dict of `process_tutorial`, and the folder's files after it. */
  datatype Report = Report(listed: seq<Attempted>, success: nat, failed: nat, present: set<string>)

  /** The record for a resource that was tried. */
  function Tried(folder: string, res: Resource, ok: bool): Attempted
  {
    Attempted(res, ok, if ok then Some(folder + "/" + res.filename) else None)
  }

  /** `process_tutorial` of the basic scraper over `resources`. `present` holds
      the names of the files already in the tutorial's folder: a resource
      whose file exists counts as a success and is not listed; every other
      one is downloaded with `retry` attempts and listed with its outcome. */
  function Processed(folder: string, resources: seq<Resource>, present: set<string>,
                     retry: int, attemptOk: (string, nat) -> bool): Report
  {
    if resources == [] then Report([], 0, 0, present)
    else
      var n := |resources| - 1;
      var p := Processed(folder, resources[..n], present, retry, attemptOk);
      var res := resources[n];
      if res.filename in p.present then
        p.(success := p.success + 1)
      else if Fetches(attemptOk, res.url, retry) then
        Report(p.listed + [Tried(folder, res, true)], p.success + 1, p.failed, p.present + {res.filename})
      else
        Report(p.listed + [Tried(folder, res, false)], p.success, p.failed + 1, p.present)
  }

  /** Every resource is counted once, as a success or as a failure; the
      successes are the skipped files and the listed downloads that worked. */
  lemma {:induction false} ProcessedCounts(folder: string, resources: seq<Resource>, present: set<string>,
                                           retry: int, attemptOk: (string, nat) -> bool)
    ensures var r := Processed(folder, resources, present, retry, attemptOk);
            r.success + r.failed == |resources| &&
            |r.listed| <= |resources| &&
            r.success == |resources| - |r.listed| + CountOf(r.listed, Downloaded, true) &&
            r.failed == CountOf(r.listed, Downloaded, false)
    decreases |resources|
  {
    if resources != [] {
      var n := |resources| - 1;
      var p := Processed(folder, resources[..n], present, retry, attemptOk);
      ProcessedCounts(folder, resources[..n], present, retry, attemptOk);
      var res := resources[n];
      var r := Processed(folder, resources, present, retry, attemptOk);
      if res.filename in p.present {
        assert r == p.(success := p.success + 1);
      } else {
        var ok := Fetches(attemptOk, res.url, retry);
        var a := Tried(folder, res, ok);
        assert Downloaded(a) == ok;
        CountSnoc(p.listed, a, Downloaded, true);
        CountSnoc(p.listed, a, Downloaded, false);
        if ok {
          assert r == Report(p.listed + [a], p.success + 1, p.failed, p.present + {res.filename});
        } else {
          assert r == Report(p.listed + [a], p.success, p.failed + 1, p.present);
        }
      }
    }
  }

  /** What a listed record says: a resource of the list whose file was not
      there beforehand, marked downloaded exactly when one of the `retry`
      attempts worked, with the path of the file it then wrote. The folder
      afterwards holds the earlier files and those the downloads wrote. */
  lemma {:induction false} ProcessedListed(folder: string, resources: seq<Resource>, present: set<string>,
                                           retry: int, attemptOk: (string, nat) -> bool)
    ensures var r := Processed(folder, resources, present, retry, attemptOk);
            (forall j :: 0 <= j < |r.listed| ==>
               r.listed[j].resource in resources && r.listed[j].resource.filename !in present &&
               r.listed[j] == Tried(folder, r.listed[j].resource, Fetches(attemptOk, r.listed[j].resource.url, retry))) &&
            r.present == present + FileNames(r.listed)
    decreases |resources|
  {
    if resources != [] {
      var n := |resources| - 1;
      var p := Processed(folder, resources[..n], present, retry, attemptOk);
      ProcessedListed(folder, resources[..n], present, retry, attemptOk);
      var res := resources[n];
      var r := Processed(folder, resources, present, retry, attemptOk);
      forall j | 0 <= j < |p.listed|
        ensures p.listed[j].resource in resources
      {
        var i :| 0 <= i < n && resources[..n][i] == p.listed[j].resource;
        assert resources[i] == p.listed[j].resource;
      }
      if res.filename !in p.present {
        var a := Tried(folder, res, Fetches(attemptOk, res.url, retry));
        FileNamesSnoc(p.listed, a);
      }
    }
  }

  /** A resource whose file is still missing afterwards was tried, and failed. */
  lemma {:induction false} ProcessedMissingFailed(folder: string, resources: seq<Resource>, present: set<string>,
                                                  retry: int, attemptOk: (string, nat) -> bool, i: nat)
    requires i < |resources|
    requires resources[i].filename !in Processed(folder, resources, present, retry, attemptOk).present
    ensures exists j :: 0 <= j < |Processed(folder, resources, present, retry, attemptOk).listed| &&
              Processed(folder, resources, present, retry, attemptOk).listed[j] == Attempted(resources[i], false, None)
    decreases |resources|
  {
    var n := |resources| - 1;
    var p := Processed(folder, resources[..n], present, retry, attemptOk);
    var r := Processed(folder, resources, present, retry, attemptOk);
    assert p.listed <= r.listed && p.present <= r.present;
    if i < n {
      assert resources[..n][i] == resources[i];
      ProcessedMissingFailed(folder, resources[..n], present, retry, attemptOk, i);
      var j :| 0 <= j < |p.listed| && p.listed[j] == Attempted(resources[i], false, None);
      assert r.listed[j] == p.listed[j];
    } else {
      assert r.listed[|p.listed|] == Attempted(resources[i], false, None);
    }
  }

  /** `process_tutorial` of the basic scraper. */
  method ProcessTutorial(folder: string, resources: seq<Resource>, present: set<string>, retry: int,
                         attemptOk: (string, nat) -> bool)
    returns (listed: seq<Attempted>, success: nat, failed: nat, present': set<string>)
    ensures Report(listed, success, failed, present') == Processed(folder, resources, present, retry, attemptOk)
  {
    listed, success, failed, present' := [], 0, 0, present;
    var i := 0;
    while i < |resources|
      invariant 0 <= i <= |resources|
      invariant Report(listed, success, failed, present') == Processed(folder, resources[..i], present, retry, attemptOk)
    {
      assert resources[..i + 1][..i] == resources[..i];
      var r := resources[i];
      if r.filename in present' {
        success := success + 1;
      } else {
        var url := r.url;
        var attempt := (k: nat) => attemptOk(url, k);
        var ok, _, _ := DownloadWithRetry(retry, attempt);
        assert forall k: nat :: attempt(k) == attemptOk(url, k);
        if ok {
          success := success + 1;
          present' := present' + {r.filename};
        } else {
          failed := failed + 1;
        }
        listed := listed + [Tried(folder, r, ok)];
      }
      i := i + 1;
    }
    assert resources[..i] == resources;
  }
}
