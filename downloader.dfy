/** `ParallelDownloader` and `process_tutorial` of the enhanced scraper: a
    download consults the cache first, otherwise requests the url, writes the
    file and adds it to the cache. The network is given as the size of the
    body the request returns (None when the request or the status check
    raises) and the disk as whether `shutil.copy2` succeeds. */
module Downloader {
  import opened Wrappers
  import opened Text
  import opened Collect
  import opened Cache
  import Tutorials

  /** Which exception `download_file` caught and stored as `error`. */
  datatype Failure = RequestFailed | CopyFailed

  /** The result dict of `download_file`. */
  datatype DownloadResult = DownloadResult(url: string, filepath: string, success: bool, cached: bool, size: nat,
                                           error: Option<Failure>)

  /** One call: its result, the cache after it, and whether it sent a request. */
  datatype Step = Step(result: DownloadResult, cache: Option<Store>, fetched: bool)

  /** The request path of `download_file`, after the cache has not served it. */
  function Fetch(cache: Option<Store>, url: string, filepath: string, useCache: bool, now: int,
                 response: Option<nat>, copyOk: bool): (s: Step)
    ensures s.fetched && !s.result.cached && s.result.url == url && s.result.filepath == filepath
    ensures s.result.success <==> response.Some?
    ensures s.result.success ==> s.result.size == response.value
    ensures !s.result.success ==> s.result.error == Some(RequestFailed)
    ensures s.cache.Some? <==> cache.Some?
  {
    var initial := DownloadResult(url, filepath, false, false, 0, None);
    if response.None? then Step(initial.(error := Some(RequestFailed)), cache, true)
    else
      var r := initial.(success := true, size := response.value);
      if useCache && cache.Some? then
        if copyOk then Step(r, Some(Added(cache.value, url, AfterLast(filepath, '/'), response.value, now)), true)
        else Step(r.(error := Some(CopyFailed)), cache, true)
      else Step(r, cache, true)
  }

  /** `download_file(url, filepath, use_cache)` with the cache `cache` (None
      when the downloader has no cache manager). */
  function Download(cache: Option<Store>, expireDays: int, url: string, filepath: string, useCache: bool, now: int,
                    response: Option<nat>, copyOk: bool): (s: Step)
    ensures s.result.url == url && s.result.filepath == filepath
    ensures s.result.cached ==> s.result.success && !s.fetched
    ensures !s.result.success ==> s.result.error.Some?
    ensures s.cache.Some? <==> cache.Some?
  {
    var initial := DownloadResult(url, filepath, false, false, 0, None);
    if useCache && cache.Some? then
      var (hit, st1) := Lookup(cache.value, url, now, expireDays);
      if hit then
        var (p, st2) := CachedFile(st1, url, now, expireDays);
        CachedFileAgrees(st1, url, now, expireDays);
        if p.Some? then
          if copyOk then Step(initial.(success := true, cached := true, size := st1.files[p.value]), Some(st2), false)
          else Step(initial.(error := Some(CopyFailed)), Some(st2), false)
        else Fetch(Some(st2), url, filepath, useCache, now, response, copyOk)
      else Fetch(Some(st1), url, filepath, useCache, now, response, copyOk)
    else Fetch(cache, url, filepath, useCache, now, response, copyOk)
  }

  /** Whether the cache serves `url` at time `now`. */
  predicate Serves(cache: Option<Store>, expireDays: int, url: string, useCache: bool, now: int)
  {
    useCache && cache.Some? && Lookup(cache.value, url, now, expireDays).0
  }

  /** A cache hit copies the cached file: no request, the cache unchanged,
      success and cached set and the size of the cached copy; if the copy
      raises, the call fails with the error set. */
  lemma DownloadHit(st: Store, expireDays: int, url: string, filepath: string, now: int,
                    response: Option<nat>, copyOk: bool)
    requires Lookup(st, url, now, expireDays).0
    ensures var s := Download(Some(st), expireDays, url, filepath, true, now, response, copyOk);
            !s.fetched && s.cache == Some(st) &&
            (copyOk ==> s.result.success && s.result.cached && s.result.error == None &&
                        s.result.size == st.files[st.index[Key(url)].filename]) &&
            (!copyOk ==> !s.result.success && s.result.error == Some(CopyFailed))
  {
    CachedFileAgrees(st, url, now, expireDays);
  }

  /** Without a cache hit, a failed request fails the call with the error set. */
  lemma DownloadRequestFails(cache: Option<Store>, expireDays: int, url: string, filepath: string, useCache: bool,
                             now: int, copyOk: bool)
    requires !Serves(cache, expireDays, url, useCache, now)
    ensures var s := Download(cache, expireDays, url, filepath, useCache, now, None, copyOk);
            s.fetched && !s.result.success && !s.result.cached && s.result.error == Some(RequestFailed)
  {
  }

  /** Without a cache hit, a successful request succeeds with the body's size,
      even when adding the file to the cache then raises: the error is set
      and success stays true. Otherwise a lookup at the same moment now finds
      the url in the cache. */
  lemma DownloadStores(st: Store, expireDays: int, url: string, filepath: string, now: int, size: nat, copyOk: bool)
    requires !Lookup(st, url, now, expireDays).0 && expireDays >= 0
    ensures var s := Download(Some(st), expireDays, url, filepath, true, now, Some(size), copyOk);
            s.fetched && s.result.success && !s.result.cached && s.result.size == size &&
            (!copyOk ==> s.result.error == Some(CopyFailed)) &&
            (copyOk ==> s.result.error == None && Lookup(s.cache.value, url, now, expireDays) == (true, s.cache.value))
  {
    var st1 := Lookup(st, url, now, expireDays).1;
    if copyOk {
      AddedThenCached(st1, url, AfterLast(filepath, '/'), size, now, now, expireDays);
    }
  }

  function ResponseFor(web: map<string, nat>, url: string): Option<nat>
  {
    if url in web then Some(web[url]) else None
  }

  /** The results of `download_batch(tasks)` run one task after the other,
      and the cache after the last. `web` maps each url that answers to the
      size of its body. */
  function Batch(cache: Option<Store>, expireDays: int, tasks: seq<(string, string)>, useCache: bool, now: int,
                 web: map<string, nat>, copyOk: bool): (r: (seq<DownloadResult>, Option<Store>))
    ensures |r.0| == |tasks|
    ensures forall i :: 0 <= i < |tasks| ==> r.0[i].url == tasks[i].0 && r.0[i].filepath == tasks[i].1
    ensures forall i :: 0 <= i < |tasks| ==> (r.0[i].cached ==> r.0[i].success) && (!r.0[i].success ==> r.0[i].error.Some?)
    ensures r.1.Some? <==> cache.Some?
  {
    if tasks == [] then ([], cache)
    else
      var n := |tasks| - 1;
      var (prev, c) := Batch(cache, expireDays, tasks[..n], useCache, now, web, copyOk);
      var s := Download(c, expireDays, tasks[n].0, tasks[n].1, useCache, now, ResponseFor(web, tasks[n].0), copyOk);
      (prev + [s.result], s.cache)
  }

  /** One more task: its download runs against the cache the earlier ones
      left. */
  lemma BatchStep(cache: Option<Store>, expireDays: int, tasks: seq<(string, string)>, i: nat, useCache: bool,
                  now: int, web: map<string, nat>, copyOk: bool)
    requires i < |tasks|
    ensures var prev := Batch(cache, expireDays, tasks[..i], useCache, now, web, copyOk);
            var s := Download(prev.1, expireDays, tasks[i].0, tasks[i].1, useCache, now, ResponseFor(web, tasks[i].0), copyOk);
            Batch(cache, expireDays, tasks[..i + 1], useCache, now, web, copyOk) == (prev.0 + [s.result], s.cache)
  {
    assert tasks[..i + 1][..i] == tasks[..i];
  }

  function Succeeded(r: DownloadResult): bool
  {
    r.success
  }

  function FromCache(r: DownloadResult): bool
  {
    r.cached
  }

  /** The three counters of the enhanced `process_tutorial`: successes and
      failures add up to the number of tasks, and the cache hits are among
      the successes. */
  lemma BatchCounts(cache: Option<Store>, expireDays: int, tasks: seq<(string, string)>, useCache: bool, now: int,
                    web: map<string, nat>, copyOk: bool)
    ensures var rs := Batch(cache, expireDays, tasks, useCache, now, web, copyOk).0;
            CountOf(rs, Succeeded, true) + CountOf(rs, Succeeded, false) == |tasks| &&
            CountOf(rs, FromCache, true) <= CountOf(rs, Succeeded, true)
  {
    var rs := Batch(cache, expireDays, tasks, useCache, now, web, copyOk).0;
    CountSplit(rs, Succeeded);
    CountImplied(rs, Succeeded, FromCache);
  }

  /** `filepath.exists() and filepath.stat().st_size > 0` */
  predicate HasFile(existing: map<string, nat>, name: string)
  {
    name in existing && existing[name] > 0
  }

  /** The download tasks of the enhanced `process_tutorial`: one per resource
      whose file is missing or empty, in order. */
  function Pending(folder: string, resources: seq<Tutorials.Resource>, existing: map<string, nat>): (r: seq<(string, string)>)
    ensures |r| <= |resources|
    ensures forall j :: 0 <= j < |r| ==> |folder| < |r[j].1| && !HasFile(existing, r[j].1[|folder| + 1..])
  {
    if resources == [] then []
    else
      var n := |resources| - 1;
      var res := resources[n];
      Pending(folder, resources[..n], existing) + (if HasFile(existing, res.filename) then []
         else assert (folder + "/" + res.filename)[|folder| + 1..] == res.filename; [(res.url, folder + "/" + res.filename)])
  }

  /** A resource gets a task exactly when its file is missing or empty. */
  lemma {:induction false} PendingExactly(folder: string, resources: seq<Tutorials.Resource>, existing: map<string, nat>,
                                          i: nat)
    requires i < |resources|
    ensures HasFile(existing, resources[i].filename) ==>
              forall j :: 0 <= j < |Pending(folder, resources, existing)| ==>
                Pending(folder, resources, existing)[j].1 != folder + "/" + resources[i].filename
    ensures !HasFile(existing, resources[i].filename) ==>
              (resources[i].url, folder + "/" + resources[i].filename) in Pending(folder, resources, existing)
    decreases |resources|
  {
    var n := |resources| - 1;
    var p := Pending(folder, resources[..n], existing);
    var name := resources[i].filename;
    if i < n {
      assert resources[..n][i] == resources[i];
      PendingExactly(folder, resources[..n], existing, i);
    }
    if HasFile(existing, name) {
      assert (folder + "/" + name)[|folder| + 1..] == name;
    }
  }

  /** The report of the enhanced `process_tutorial`. */
  datatype TutorialReport = TutorialReport(results: seq<DownloadResult>, success: nat, cached: nat, failed: nat)

  class ParallelDownloader {
    const cacheManager: CacheManager?

    constructor (cacheManager: CacheManager?)
      ensures this.cacheManager == cacheManager
    {
      this.cacheManager := cacheManager;
    }

    /** The cache as the pure model sees it. */
    function CacheState(): Option<Store>
      reads this, cacheManager
    {
      if cacheManager == null then None else Some(cacheManager.State())
    }

    function ExpireDays(): int
      reads this
    {
      if cacheManager == null then 0 else cacheManager.expireDays
    }

    method DownloadFile(url: string, filepath: string, useCache: bool, now: int, response: Option<nat>, copyOk: bool)
      returns (r: DownloadResult, ghost fetched: bool)
      requires cacheManager != null ==> cacheManager.Valid()
      modifies cacheManager
      ensures cacheManager != null ==> cacheManager.Valid()
      ensures Step(r, CacheState(), fetched) ==
              Download(old(CacheState()), ExpireDays(), url, filepath, useCache, now, response, copyOk)
    {
      r := DownloadResult(url, filepath, false, false, 0, None);
      fetched := false;
      if useCache && cacheManager != null {
        ghost var st := cacheManager.State();
        var hit := cacheManager.IsCached(url, now);
        if hit {
          CachedFileAgrees(cacheManager.State(), url, now, cacheManager.expireDays);
          var p := cacheManager.GetCachedFile(url, now);
          if p.Some? {
            if !copyOk {
              r := r.(error := Some(CopyFailed));
              return;
            }
            r := r.(success := true, cached := true, size := cacheManager.files[p.value]);
            return;
          }
        }
      }
      fetched := true;
      if response.None? {
        r := r.(error := Some(RequestFailed));
        return;
      }
      r := r.(success := true, size := response.value);
      if useCache && cacheManager != null && r.success {
        var stored := cacheManager.AddToCache(url, AfterLast(filepath, '/'), response.value, now, copyOk);
        if stored.None? {
          r := r.(error := Some(CopyFailed));
        }
      }
    }

    /** `download_batch`, one task after the other. */
    method DownloadBatch(tasks: seq<(string, string)>, useCache: bool, now: int, web: map<string, nat>, copyOk: bool)
      returns (results: seq<DownloadResult>)
      requires cacheManager != null ==> cacheManager.Valid()
      modifies cacheManager
      ensures cacheManager != null ==> cacheManager.Valid()
      ensures (results, CacheState()) == Batch(old(CacheState()), ExpireDays(), tasks, useCache, now, web, copyOk)
    {
      results := [];
      for i := 0 to |tasks|
        invariant cacheManager != null ==> cacheManager.Valid()
        invariant (results, CacheState()) == Batch(old(CacheState()), ExpireDays(), tasks[..i], useCache, now, web, copyOk)
      {
        BatchStep(old(CacheState()), ExpireDays(), tasks, i, useCache, now, web, copyOk);
        var (url, path) := tasks[i];
        var r, _ := DownloadFile(url, path, useCache, now, ResponseFor(web, url), copyOk);
        results := results + [r];
      }
      assert tasks[..|tasks|] == tasks;
    }

    /** The enhanced `process_tutorial`: `existing` maps the names of the
        files already in the tutorial's folder to their sizes. */
    method ProcessTutorial(folder: string, resources: seq<Tutorials.Resource>, existing: map<string, nat>,
                           now: int, web: map<string, nat>, copyOk: bool)
      returns (report: TutorialReport)
      requires cacheManager != null ==> cacheManager.Valid()
      modifies cacheManager
      ensures cacheManager != null ==> cacheManager.Valid()
      ensures var tasks := Pending(folder, resources, existing);
              var (rs, c) := Batch(old(CacheState()), ExpireDays(), tasks, true, now, web, copyOk);
              report == TutorialReport(rs, CountOf(rs, Succeeded, true), CountOf(rs, FromCache, true),
                                       CountOf(rs, Succeeded, false)) &&
              CacheState() == c
    {
      var tasks := [];
      var i := 0;
      while i < |resources|
        invariant 0 <= i <= |resources|
        invariant tasks == Pending(folder, resources[..i], existing)
      {
        assert resources[..i + 1][..i] == resources[..i];
        var res := resources[i];
        if !HasFile(existing, res.filename) {
          tasks := tasks + [(res.url, folder + "/" + res.filename)];
        }
        i := i + 1;
      }
      assert resources[..i] == resources;
      if tasks == [] {
        return TutorialReport([], 0, 0, 0);
      }
      var results := DownloadBatch(tasks, true, now, web, copyOk);
      var success := CountOf(results, Succeeded, true);
      var cached := CountOf(results, FromCache, true);
      var failed := CountOf(results, Succeeded, false);
      report := TutorialReport(results, success, cached, failed);
    }
  }
}
