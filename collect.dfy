/** The two aggregation loops every scraper repeats over its result list:
    de-duplication with a `seen_urls` set, keeping the first occurrence of each
    key in order, and per-label counting into a dict (`d[t] = d.get(t, 0) + 1`),
    whose keys Python keeps in first-insertion order. */
module Collect {
  import opened Wrappers

  predicate DistinctKeys<T, K(==)>(s: seq<T>, key: T -> K)
  {
    forall i, j :: 0 <= i < j < |s| ==> key(s[i]) != key(s[j])
  }

  /** The keys of the elements of `s`. */
  ghost function KeysOf<T, K>(s: seq<T>, key: T -> K): set<K>
  {
    if s == [] then {} else KeysOf(s[..|s| - 1], key) + {key(s[|s| - 1])}
  }

  lemma {:induction false} KeysOfMembers<T, K>(s: seq<T>, key: T -> K, x: K)
    ensures x in KeysOf(s, key) <==> exists j :: 0 <= j < |s| && key(s[j]) == x
    decreases |s|
  {
    if s != [] {
      var n := |s| - 1;
      KeysOfMembers(s[..n], key, x);
      assert forall j :: 0 <= j < n ==> s[..n][j] == s[j];
    }
  }

  /** What the de-duplication loop knows after scanning `s[..i]`: `r` holds
      kept elements of `s[..i]` at the increasing positions `idx`, each the
      first of its key, with no key twice and every kept key of `s[..i]`
      among them. */
  ghost predicate DedupState<T, K>(s: seq<T>, key: T -> K, keep: T -> bool, i: nat, r: seq<T>, idx: seq<nat>)
  {
    i <= |s| && |idx| == |r| &&
    (forall j :: 0 <= j < |r| ==> idx[j] < i && r[j] == s[idx[j]] && keep(r[j])) &&
    (forall j, j' :: 0 <= j < j' < |r| ==> idx[j] < idx[j']) &&
    (forall j, k :: 0 <= j < |r| && 0 <= k < idx[j] && keep(s[k]) ==> key(s[k]) != key(r[j])) &&
    (forall k :: 0 <= k < i && keep(s[k]) ==> key(s[k]) in KeysOf(r, key)) &&
    DistinctKeys(r, key)
  }

  /** An element that is dropped or whose key was seen leaves the output as
      it is. */
  lemma DedupSkip<T, K>(s: seq<T>, key: T -> K, keep: T -> bool, i: nat, r: seq<T>, idx: seq<nat>)
    requires DedupState(s, key, keep, i, r, idx) && i < |s|
    requires !keep(s[i]) || key(s[i]) in KeysOf(r, key)
    ensures DedupState(s, key, keep, i + 1, r, idx)
  {
  }

  /** A kept element with a new key is appended. */
  lemma DedupTake<T, K>(s: seq<T>, key: T -> K, keep: T -> bool, i: nat, r: seq<T>, idx: seq<nat>)
    requires DedupState(s, key, keep, i, r, idx) && i < |s|
    requires keep(s[i]) && key(s[i]) !in KeysOf(r, key)
    ensures KeysOf(r + [s[i]], key) == KeysOf(r, key) + {key(s[i])}
    ensures DedupState(s, key, keep, i + 1, r + [s[i]], idx + [i])
  {
    var r' := r + [s[i]];
    assert r'[..|r|] == r;
    KeysOfMembers(r, key, key(s[i]));
    forall j, k | 0 <= j < |r'| && 0 <= k < (idx + [i])[j] && keep(s[k])
      ensures key(s[k]) != key(r'[j])
    {
      if j == |r| {
        assert key(s[k]) in KeysOf(r, key);
      }
    }
  }

  /** The kept elements of `s` in order, each only when no earlier kept
      element has its key. */
  ghost function FirstOfEach<T, K>(s: seq<T>, key: T -> K, keep: T -> bool): seq<T>
  {
    if s == [] then []
    else
      var p := FirstOfEach(s[..|s| - 1], key, keep);
      var x := s[|s| - 1];
      if keep(x) && key(x) !in KeysOf(p, key) then p + [x] else p
  }

  /** Scanning one more element of `s`. */
  lemma FirstOfEachStep<T, K>(s: seq<T>, key: T -> K, keep: T -> bool, i: nat)
    requires i < |s|
    ensures FirstOfEach(s[..i + 1], key, keep) ==
              var p := FirstOfEach(s[..i], key, keep);
              if keep(s[i]) && key(s[i]) !in KeysOf(p, key) then p + [s[i]] else p
  {
    assert s[..i + 1][..i] == s[..i];
  }

  /** The filter that keeps everything. */
  predicate KeepAll<T>(x: T)
  {
    true
  }

  /** One more element scanned keeps the selection a first-occurrence
      selection. */
  lemma FirstOfEachStateStep<T, K>(s: seq<T>, key: T -> K, keep: T -> bool, i: nat, idx: seq<nat>)
    returns (idx': seq<nat>)
    requires i < |s| && DedupState(s, key, keep, i, FirstOfEach(s[..i], key, keep), idx)
    ensures DedupState(s, key, keep, i + 1, FirstOfEach(s[..i + 1], key, keep), idx')
  {
    var p := FirstOfEach(s[..i], key, keep);
    FirstOfEachStep(s, key, keep, i);
    if keep(s[i]) && key(s[i]) !in KeysOf(p, key) {
      DedupTake(s, key, keep, i, p, idx);
      idx' := idx + [i];
    } else {
      DedupSkip(s, key, keep, i, p, idx);
      idx' := idx;
    }
  }

  /** The first-occurrence selection of `s[..i]` is kept elements of
      `s[..i]` at increasing positions, each the first of its key. */
  lemma {:induction false} FirstOfEachState<T, K>(s: seq<T>, key: T -> K, keep: T -> bool, i: nat)
    returns (idx: seq<nat>)
    requires i <= |s|
    ensures DedupState(s, key, keep, i, FirstOfEach(s[..i], key, keep), idx)
    decreases i
  {
    if i == 0 {
      assert s[..0] == [];
      idx := [];
    } else {
      idx := FirstOfEachState(s, key, keep, i - 1);
      idx := FirstOfEachStateStep(s, key, keep, i - 1, idx);
    }
  }

  /** `for x in s: if keep(x) and key(x) not in seen: seen.add(key(x)); out.append(x)`.
      `idx` names, for each output element, its position in `s`. */
  method DedupByKey<T, K(==)>(s: seq<T>, key: T -> K, keep: T -> bool) returns (r: seq<T>, ghost idx: seq<nat>)
    ensures r == FirstOfEach(s, key, keep)
    ensures |idx| == |r|
    ensures forall j :: 0 <= j < |r| ==> idx[j] < |s| && r[j] == s[idx[j]] && keep(r[j])
    ensures forall j, j' :: 0 <= j < j' < |r| ==> idx[j] < idx[j']
    ensures forall j, i :: 0 <= j < |r| && 0 <= i < idx[j] && keep(s[i]) ==> key(s[i]) != key(r[j])
    ensures forall i :: 0 <= i < |s| && keep(s[i]) ==> exists j :: 0 <= j < |r| && key(r[j]) == key(s[i])
    ensures DistinctKeys(r, key)
  {
    var seen: set<K> := {};
    r := [];
    var i := 0;
    while i < |s|
      invariant i <= |s|
      invariant seen == KeysOf(r, key)
      invariant r == FirstOfEach(s[..i], key, keep)
    {
      FirstOfEachStep(s, key, keep, i);
      if keep(s[i]) && key(s[i]) !in seen {
        seen := seen + {key(s[i])};
        r := r + [s[i]];
      }
      i := i + 1;
    }
    assert s[..|s|] == s;
    idx := FirstOfEachState(s, key, keep, |s|);
    forall k | 0 <= k < |s| && keep(s[k])
      ensures exists j :: 0 <= j < |r| && key(r[j]) == key(s[k])
    {
      KeysOfMembers(r, key, key(s[k]));
    }
  }

  /** How many elements of `s` carry tag `l`. */
  function CountOf<T, L(==)>(s: seq<T>, tag: T -> L, l: L): nat
  {
    if s == [] then 0
    else CountOf(s[..|s| - 1], tag, l) + (if tag(s[|s| - 1]) == l then 1 else 0)
  }

  /** Every element is counted under `true` or under `false`. */
  lemma {:induction false} CountSplit<T>(s: seq<T>, test: T -> bool)
    ensures CountOf(s, test, true) + CountOf(s, test, false) == |s|
    decreases |s|
  {
    if s != [] {
      var n := |s| - 1;
      CountSplit(s[..n], test);
      assert CountOf(s, test, true) == CountOf(s[..n], test, true) + (if test(s[n]) == true then 1 else 0);
      assert CountOf(s, test, false) == CountOf(s[..n], test, false) + (if test(s[n]) == false then 1 else 0);
    }
  }

  /** A test implied by another passes at least as often. */
  lemma {:induction false} CountImplied<T>(s: seq<T>, weak: T -> bool, strong: T -> bool)
    requires forall i :: 0 <= i < |s| && strong(s[i]) ==> weak(s[i])
    ensures CountOf(s, strong, true) <= CountOf(s, weak, true)
    decreases |s|
  {
    if s != [] {
      CountImplied(s[..|s| - 1], weak, strong);
    }
  }

  /** Counting over a sequence grown by one element. */
  lemma CountSnoc<T, L>(s: seq<T>, x: T, tag: T -> L, l: L)
    ensures CountOf(s + [x], tag, l) == CountOf(s, tag, l) + (if tag(x) == l then 1 else 0)
  {
    assert (s + [x])[..|s|] == s;
  }

  /** Sum of the counts of a tally. */
  function Total<L>(counts: seq<(L, nat)>): nat
  {
    if counts == [] then 0 else Total(counts[..|counts| - 1]) + counts[|counts| - 1].1
  }

  lemma {:induction false} TotalUpdate<L>(counts: seq<(L, nat)>, k: nat, l: L, v: nat)
    requires k < |counts|
    ensures Total(counts[k := (l, v)]) + counts[k].1 == Total(counts) + v
    decreases |counts|
  {
    var n := |counts| - 1;
    if k < n {
      assert counts[k := (l, v)][..n] == counts[..n][k := (l, v)];
      TotalUpdate(counts[..n], k, l, v);
    } else {
      assert counts[k := (l, v)][..n] == counts[..n];
    }
  }

  /** Position of tag `l` in a tally, if it is there. */
  function Find<L(==)>(counts: seq<(L, nat)>, l: L): (r: int)
    ensures -1 <= r < |counts|
    ensures r >= 0 ==> counts[r].0 == l
    ensures r < 0 ==> forall k :: 0 <= k < |counts| ==> counts[k].0 != l
  {
    if counts == [] then -1
    else if counts[|counts| - 1].0 == l then |counts| - 1
    else Find(counts[..|counts| - 1], l)
  }

  /** `d[l] = d.get(l, 0) + 1` on a dict kept in insertion order. */
  function Bump<L(==)>(counts: seq<(L, nat)>, l: L): seq<(L, nat)>
  {
    var k := Find(counts, l);
    if k >= 0 then counts[k := (l, counts[k].1 + 1)] else counts + [(l, 1)]
  }

  /** Tag `l` has an entry in the tally. */
  ghost predicate HasTag<L>(counts: seq<(L, nat)>, l: L)
  {
    exists k :: 0 <= k < |counts| && counts[k].0 == l
  }

  /** `counts` is the dict of per-tag counts of `s`: each tag once, each with
      its number of elements (never 0), every element's tag present, and the
      counts summing to the length of `s`. */
  ghost predicate TallyOf<T, L>(s: seq<T>, tag: T -> L, counts: seq<(L, nat)>)
  {
    (forall a, b :: 0 <= a < b < |counts| ==> counts[a].0 != counts[b].0) &&
    (forall k :: 0 <= k < |counts| ==> counts[k].1 == CountOf(s, tag, counts[k].0) > 0) &&
    (forall i :: 0 <= i < |s| ==> HasTag(counts, tag(s[i]))) &&
    Total(counts) == |s|
  }

  /** A tag no element carries has count 0. */
  lemma {:induction false} CountAbsent<T, L>(s: seq<T>, tag: T -> L, l: L)
    requires forall j :: 0 <= j < |s| ==> tag(s[j]) != l
    ensures CountOf(s, tag, l) == 0
    decreases |s|
  {
    if s != [] {
      CountAbsent(s[..|s| - 1], tag, l);
    }
  }

  /** Bumping a tag keeps every entry and adds that tag. */
  lemma HasTagBump<L>(counts: seq<(L, nat)>, l: L, l': L)
    ensures HasTag(Bump(counts, l), l)
    ensures HasTag(counts, l') ==> HasTag(Bump(counts, l), l')
  {
    var k := Find(counts, l);
    var c := Bump(counts, l);
    if k >= 0 {
      assert c[k].0 == l;
    } else {
      assert c[|counts|].0 == l;
    }
    if HasTag(counts, l') {
      var k' :| 0 <= k' < |counts| && counts[k'].0 == l';
      assert c[k'].0 == l';
    }
  }

  /** The counts of a tally bumped for a tag already present. */
  lemma TallyExtendPresent<T, L>(s: seq<T>, x: T, tag: T -> L, counts: seq<(L, nat)>)
    requires TallyOf(s, tag, counts) && Find(counts, tag(x)) >= 0
    ensures var c := Bump(counts, tag(x));
      (forall a, b :: 0 <= a < b < |c| ==> c[a].0 != c[b].0) &&
      (forall k :: 0 <= k < |c| ==> c[k].1 == CountOf(s + [x], tag, c[k].0) > 0) &&
      Total(c) == |s| + 1
  {
    var k := Find(counts, tag(x));
    TotalUpdate(counts, k, tag(x), counts[k].1 + 1);
    forall l
      ensures CountOf(s + [x], tag, l) == CountOf(s, tag, l) + (if tag(x) == l then 1 else 0)
    {
      CountSnoc(s, x, tag, l);
    }
  }

  /** The counts of a tally extended by a new tag. */
  lemma TallyExtendNew<T, L>(s: seq<T>, x: T, tag: T -> L, counts: seq<(L, nat)>)
    requires TallyOf(s, tag, counts) && Find(counts, tag(x)) < 0
    ensures var c := Bump(counts, tag(x));
      (forall a, b :: 0 <= a < b < |c| ==> c[a].0 != c[b].0) &&
      (forall k :: 0 <= k < |c| ==> c[k].1 == CountOf(s + [x], tag, c[k].0) > 0) &&
      Total(c) == |s| + 1
  {
    var c := Bump(counts, tag(x));
    CountAbsent(s, tag, tag(x));
    assert c[..|counts|] == counts;
    forall l
      ensures CountOf(s + [x], tag, l) == CountOf(s, tag, l) + (if tag(x) == l then 1 else 0)
    {
      CountSnoc(s, x, tag, l);
    }
  }

  /** One more element bumps exactly its own tag. */
  lemma TallyExtend<T, L>(s: seq<T>, x: T, tag: T -> L, counts: seq<(L, nat)>)
    requires TallyOf(s, tag, counts)
    ensures TallyOf(s + [x], tag, Bump(counts, tag(x)))
  {
    var s' := s + [x];
    var c := Bump(counts, tag(x));
    if Find(counts, tag(x)) >= 0 {
      TallyExtendPresent(s, x, tag, counts);
    } else {
      TallyExtendNew(s, x, tag, counts);
    }
    forall i | 0 <= i < |s'|
      ensures HasTag(c, tag(s'[i]))
    {
      HasTagBump(counts, tag(x), tag(s'[i]));
      if i < |s| {
        assert s'[i] == s[i];
      }
    }
  }

  /** `for x in s: t = tag(x); d[t] = d.get(t, 0) + 1`, the dict read in its
      insertion order. */
  method Tally<T, L(==)>(s: seq<T>, tag: T -> L) returns (counts: seq<(L, nat)>)
    ensures TallyOf(s, tag, counts)
  {
    counts := [];
    var i := 0;
    while i < |s|
      invariant 0 <= i <= |s|
      invariant TallyOf(s[..i], tag, counts)
    {
      TallyExtend(s[..i], s[i], tag, counts);
      assert s[..i] + [s[i]] == s[..i + 1];
      counts := Bump(counts, tag(s[i]));
      i := i + 1;
    }
    assert s[..i] == s;
  }

  /** Python's `s[:n]`, where a negative `n` drops that many elements from
      the end. */
  function SliceTo<T>(s: seq<T>, n: int): (r: seq<T>)
    ensures r <= s
    ensures 0 <= n ==> |r| == if n < |s| then n else |s|
    ensures n < 0 ==> |r| == if -n < |s| then |s| + n else 0
  {
    if 0 <= n then (if n < |s| then s[..n] else s)
    else (if -n < |s| then s[..|s| + n] else [])
  }

  /** The images under `f` of the elements of `s` that `keep` accepts, in
      order. */
  function Select<T, U>(s: seq<T>, keep: T -> bool, f: T -> U): seq<U>
  {
    if s == [] then []
    else Select(s[..|s| - 1], keep, f) + (if keep(s[|s| - 1]) then [f(s[|s| - 1])] else [])
  }

  lemma {:induction false} SelectMembers<T, U>(s: seq<T>, keep: T -> bool, f: T -> U, u: U)
    ensures u in Select(s, keep, f) <==> exists i :: 0 <= i < |s| && keep(s[i]) && f(s[i]) == u
    decreases |s|
  {
    if s != [] {
      var n := |s| - 1;
      SelectMembers(s[..n], keep, f, u);
      if exists i :: 0 <= i < |s| && keep(s[i]) && f(s[i]) == u {
        var i :| 0 <= i < |s| && keep(s[i]) && f(s[i]) == u;
        if i < n {
          assert s[..n][i] == s[i];
        }
      }
    }
  }

  /** The values `f` yields for the elements of `s`, in order, skipping
      the elements it maps to `None`. */
  function Harvest<T, U>(s: seq<T>, f: T -> Option<U>): seq<U>
  {
    if s == [] then []
    else Harvest(s[..|s| - 1], f) + (match f(s[|s| - 1]) case Some(u) => [u] case None => [])
  }

  /** Every harvested value is yielded by some element, and every value an
      element yields is harvested. */
  lemma {:induction false} HarvestMembers<T, U>(s: seq<T>, f: T -> Option<U>)
    ensures forall k :: 0 <= k < |Harvest(s, f)| ==> exists i :: 0 <= i < |s| && f(s[i]) == Some(Harvest(s, f)[k])
    ensures forall i :: 0 <= i < |s| && f(s[i]).Some? ==> f(s[i]).value in Harvest(s, f)
    decreases |s|
  {
    if s != [] {
      var n := |s| - 1;
      var prev := Harvest(s[..n], f);
      var last: seq<U> := match f(s[n]) case Some(u) => [u] case None => [];
      HarvestMembers(s[..n], f);
      assert Harvest(s, f) == prev + last;
      forall k | 0 <= k < |Harvest(s, f)|
        ensures exists i :: 0 <= i < |s| && f(s[i]) == Some(Harvest(s, f)[k])
      {
        if k < |prev| {
          var i :| 0 <= i < |s[..n]| && f(s[..n][i]) == Some(prev[k]);
          assert s[..n][i] == s[i] && Harvest(s, f)[k] == prev[k];
          assert 0 <= i < |s| && f(s[i]) == Some(Harvest(s, f)[k]);
        } else {
          assert 0 <= n < |s| && f(s[n]) == Some(Harvest(s, f)[k]);
        }
      }
      forall i | 0 <= i < |s| && f(s[i]).Some?
        ensures f(s[i]).value in Harvest(s, f)
      {
        if i < n {
          assert s[..n][i] == s[i];
        }
      }
    } else {
      assert Harvest(s, f) == [];
    }
  }

  lemma HarvestStep<T, U>(s: seq<T>, f: T -> Option<U>, i: nat)
    requires i < |s|
    ensures Harvest(s[..i + 1], f) == Harvest(s[..i], f) + (match f(s[i]) case Some(u) => [u] case None => [])
  {
    assert s[..i + 1][..i] == s[..i];
  }

  lemma SelectStep<T, U>(s: seq<T>, keep: T -> bool, f: T -> U, i: nat)
    requires i < |s|
    ensures Select(s[..i + 1], keep, f) == Select(s[..i], keep, f) + (if keep(s[i]) then [f(s[i])] else [])
  {
    assert s[..i + 1][..i] == s[..i];
  }

  /** The images under `f` of the elements of `s` that pass `test` with
      `p`, in order. */
  function Pick<T, P, U>(s: seq<T>, p: P, test: (T, P) -> bool, f: T -> U): seq<U>
  {
    if s == [] then []
    else Pick(s[..|s| - 1], p, test, f) + (if test(s[|s| - 1], p) then [f(s[|s| - 1])] else [])
  }

  lemma {:induction false} PickMembers<T, P, U>(s: seq<T>, p: P, test: (T, P) -> bool, f: T -> U, u: U)
    ensures u in Pick(s, p, test, f) <==> exists i :: 0 <= i < |s| && test(s[i], p) && f(s[i]) == u
    decreases |s|
  {
    if s != [] {
      var n := |s| - 1;
      PickMembers(s[..n], p, test, f, u);
      if exists i :: 0 <= i < |s| && test(s[i], p) && f(s[i]) == u {
        var i :| 0 <= i < |s| && test(s[i], p) && f(s[i]) == u;
        if i < n {
          assert s[..n][i] == s[i];
        }
      }
    }
  }

  /** `x` passes `test` with some parameter of `ps`. */
  predicate PassesAny<T, P>(x: T, ps: seq<P>, test: (T, P) -> bool)
  {
    exists k :: 0 <= k < |ps| && test(x, ps[k])
  }

  /** One `Pick` pass per parameter of `ps`, the passes concatenated. */
  function PickEach<T, P, U>(s: seq<T>, ps: seq<P>, test: (T, P) -> bool, f: T -> U): seq<U>
  {
    if ps == [] then [] else Pick(s, ps[0], test, f) + PickEach(s, ps[1..], test, f)
  }

  lemma {:induction false} PickEachMembers<T, P, U>(s: seq<T>, ps: seq<P>, test: (T, P) -> bool, f: T -> U, u: U)
    ensures u in PickEach(s, ps, test, f) <==> exists i :: 0 <= i < |s| && PassesAny(s[i], ps, test) && f(s[i]) == u
    decreases |ps|
  {
    if ps != [] {
      PickMembers(s, ps[0], test, f, u);
      PickEachMembers(s, ps[1..], test, f, u);
      if exists i :: 0 <= i < |s| && PassesAny(s[i], ps, test) && f(s[i]) == u {
        var i :| 0 <= i < |s| && PassesAny(s[i], ps, test) && f(s[i]) == u;
        var k :| 0 <= k < |ps| && test(s[i], ps[k]);
        if k > 0 {
          assert ps[1..][k - 1] == ps[k];
        }
      }
      if exists i :: 0 <= i < |s| && PassesAny(s[i], ps[1..], test) && f(s[i]) == u {
        var i :| 0 <= i < |s| && PassesAny(s[i], ps[1..], test) && f(s[i]) == u;
        var k :| 0 <= k < |ps[1..]| && test(s[i], ps[1..][k]);
        assert test(s[i], ps[k + 1]);
      }
    }
  }

  /** `[x for x in s if keep(x)]` */
  function Filter<T>(s: seq<T>, keep: T -> bool): (r: seq<T>)
    ensures forall k :: 0 <= k < |r| ==> r[k] in s && keep(r[k])
    ensures forall i :: 0 <= i < |s| && keep(s[i]) ==> s[i] in r
    ensures |r| == CountOf(s, keep, true)
  {
    if s == [] then []
    else
      var x := s[|s| - 1];
      Filter(s[..|s| - 1], keep) + (if keep(x) then [x] else [])
  }

  /** Filtering keeps order and multiplicity: it works element by element,
      keeping an element exactly when it passes, wherever the input is
      split. */
  lemma {:induction false} FilterExactly<T>(a: seq<T>, b: seq<T>, x: T, keep: T -> bool)
    ensures Filter(a + b, keep) == Filter(a, keep) + Filter(b, keep)
    ensures Filter([x], keep) == if keep(x) then [x] else []
    decreases |b|
  {
    assert [x][..0] == [];
    if b == [] {
      assert a + b == a;
    } else {
      var n := |b| - 1;
      assert (a + b)[..|a + b| - 1] == a + b[..n] && (a + b)[|a + b| - 1] == b[n];
      FilterExactly(a, b[..n], x, keep);
      AppendAssoc(Filter(a, keep), Filter(b[..n], keep), if keep(b[n]) then [b[n]] else []);
    }
  }

  lemma AppendAssoc<T>(a: seq<T>, b: seq<T>, c: seq<T>)
    ensures (a + b) + c == a + (b + c)
  {
  }

  lemma SplitFirst<T>(a: seq<T>, b: seq<T>)
    requires a != []
    ensures (a + b)[0] == a[0] && (a + b)[1..] == a[1..] + b
  {
  }

  /** Taking `x` off the to-do set `todo` moves it to the done part of `all`. */
  lemma TakeOne<T>(all: set<T>, todo: set<T>, x: T)
    requires x in todo && todo <= all
    ensures (all - todo) + {x} == all - (todo - {x})
    ensures |todo - {x}| < |todo|
  {
  }

  lemma SplitLast<T>(s: seq<T>)
    requires s != []
    ensures s[..|s| - 1] + [s[|s| - 1]] == s
  {
  }
}
