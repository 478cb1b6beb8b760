/** The bookkeeping the two page crawlers share: a log of page requests
    with the depth each was made at, the visited set it must agree with,
    and "this resource was found on a page requested during this call". */
module Crawl {
  import opened Collect

  /** One page request, with the depth it was made at. */
  datatype Fetch = Fetch(url: string, depth: int)

  function FetchUrl(f: Fetch): string
  {
    f.url
  }

  /** A URL is visited exactly when it was requested, and no URL was
      requested twice. */
  ghost predicate Logged(visited: set<string>, log: seq<Fetch>)
  {
    visited == KeysOf(log, FetchUrl) && DistinctKeys(log, FetchUrl)
  }

  /** Marking an unvisited URL visited and requesting it keeps the log in
      step with the visited set. */
  lemma LogVisit(visited: set<string>, log: seq<Fetch>, url: string, depth: int)
    requires Logged(visited, log) && url !in visited
    ensures Logged(visited + {url}, log + [Fetch(url, depth)])
  {
    KeysOfMembers(log, FetchUrl, url);
    assert (log + [Fetch(url, depth)])[..|log|] == log;
  }

  /** Every request logged from position `from` on was made at depth `d` or
      deeper. */
  ghost predicate AtLeast(log: seq<Fetch>, from: nat, d: int)
  {
    forall k :: from <= k < |log| ==> log[k].depth >= d
  }

  /** Every request logged from position `from` on was made at depth `d` or
      shallower. */
  ghost predicate AtMost(log: seq<Fetch>, from: nat, d: int)
  {
    forall k :: from <= k < |log| ==> log[k].depth <= d
  }

  /** A depth floor of a log and of what a later call appended to it holds
      of the whole. */
  lemma AtLeastJoin(log: seq<Fetch>, log': seq<Fetch>, from: nat, d: int)
    requires log <= log' && from <= |log|
    requires AtLeast(log, from, d) && AtLeast(log', |log|, d)
    ensures AtLeast(log', from, d)
  {
    forall k | from <= k < |log|
      ensures log'[k] == log[k]
    {
    }
  }

  /** A request at depth `d` followed by requests one level deeper or
      more. */
  lemma AtLeastFrom(log: seq<Fetch>, start: nat, d: int)
    requires start < |log| && log[start].depth == d && AtLeast(log, start + 1, d + 1)
    ensures AtLeast(log, start, d)
  {
  }

  /** A depth ceiling of a log and of what a later call appended to it
      holds of the whole. */
  lemma AtMostJoin(log: seq<Fetch>, log': seq<Fetch>, from: nat, d: int)
    requires log <= log' && from <= |log|
    requires AtMost(log, from, d) && AtMost(log', |log|, d)
    ensures AtMost(log', from, d)
  {
    forall k | from <= k < |log|
      ensures log'[k] == log[k]
    {
    }
  }

  /** `x` was found on a page that answered and was requested at or after
      position `from` of the log; `own(u, p, x)` says page `p` at URL `u`
      yields `x` itself. */
  ghost predicate FoundAt<P, R>(x: R, web: map<string, P>, own: (string, P, R) -> bool, log: seq<Fetch>, from: nat)
  {
    exists j :: from <= j < |log| && log[j].url in web && own(log[j].url, web[log[j].url], x)
  }

  /** Every resource of `found` was found on such a page. */
  ghost predicate FromPages<P, R>(found: seq<R>, web: map<string, P>, own: (string, P, R) -> bool,
                                  log: seq<Fetch>, from: nat)
  {
    forall k :: 0 <= k < |found| ==> FoundAt(found[k], web, own, log, from)
  }

  lemma FromPagesGrow<P, R>(found: seq<R>, web: map<string, P>, own: (string, P, R) -> bool,
                            log: seq<Fetch>, log': seq<Fetch>, from: nat)
    requires log <= log' && FromPages(found, web, own, log, from)
    ensures FromPages(found, web, own, log', from)
  {
    forall k | 0 <= k < |found|
      ensures FoundAt(found[k], web, own, log', from)
    {
      assert FoundAt(found[k], web, own, log, from);
      var j :| from <= j < |log| && log[j].url in web && own(log[j].url, web[log[j].url], found[k]);
      assert log'[j] == log[j];
    }
  }

  lemma FromPagesJoin<P, R>(a: seq<R>, b: seq<R>, web: map<string, P>, own: (string, P, R) -> bool,
                            log: seq<Fetch>, from: nat, mid: nat)
    requires from <= mid
    requires FromPages(a, web, own, log, from) && FromPages(b, web, own, log, mid)
    ensures FromPages(a + b, web, own, log, from)
  {
    forall k | 0 <= k < |a + b|
      ensures FoundAt((a + b)[k], web, own, log, from)
    {
      if k < |a| {
        assert (a + b)[k] == a[k];
      } else {
        assert (a + b)[k] == b[k - |a|];
        assert FoundAt(b[k - |a|], web, own, log, mid);
      }
    }
  }

  /** What the page at position `from` of the log yields itself. */
  lemma FromPagesOwn<P, R>(found: seq<R>, web: map<string, P>, own: (string, P, R) -> bool,
                           log: seq<Fetch>, from: nat)
    requires from < |log| && log[from].url in web
    requires forall k :: 0 <= k < |found| ==> own(log[from].url, web[log[from].url], found[k])
    ensures FromPages(found, web, own, log, from)
  {
  }

  /** Every element of `b` also appears in `a`. */
  lemma FromPagesPick<P, R>(a: seq<R>, b: seq<R>, web: map<string, P>, own: (string, P, R) -> bool,
                            log: seq<Fetch>, from: nat)
    requires FromPages(a, web, own, log, from)
    requires forall k :: 0 <= k < |b| ==> b[k] in a
    ensures FromPages(b, web, own, log, from)
  {
    forall k | 0 <= k < |b|
      ensures FoundAt(b[k], web, own, log, from)
    {
      var i :| 0 <= i < |a| && a[i] == b[k];
      assert FoundAt(a[i], web, own, log, from);
    }
  }
}
