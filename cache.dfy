/** `CacheManager` of the enhanced scraper: a JSON index in the cache
    directory, one entry per downloaded url, holding the url, the name of the
    cached copy, the original file name, the date it was added and its size.
    Entries older than `expire_days` days are dropped on lookup. The clock is a
    parameter counting seconds; the directory is the map `files` from file
    name to size. */
module Cache {
  import opened Wrappers
  import opened Collect
  import opened Text

  const SecondsPerDay: int := 86400

  datatype Entry = Entry(url: string, filename: string, originalName: string, date: int, size: nat)

  /** The state of the cache directory: the index and the files present in it. */
  datatype Store = Store(index: map<string, Entry>, files: map<string, nat>)

  /** One character of the stand-in digest: two characters, never `_`, the
      first telling whether the second is the character itself. */
  function Cell(c: char): string
  {
    if c == '_' then ['-', 'u'] else ['.', c]
  }

  /** `_get_cache_key`: the md5 hex digest of the url, a string without `_`
      that tells urls apart. The url written two characters per character by
      `Cell` stands for it: it has no `_` either and is injective
      (`KeyInjective`). */
  function Key(url: string): (k: string)
    ensures |k| == 2 * |url|
    ensures Avoids(k, '_')
  {
    if url == [] then [] else Cell(url[0]) + Key(url[1..])
  }

  /** `f"{cache_key}_{source_file.name}"` */
  function CacheFilename(key: string, sourceName: string): string
  {
    key + "_" + sourceName
  }

  /** Different urls have different keys. */
  lemma {:induction false} KeyInjective(u: string, v: string)
    requires Key(u) == Key(v)
    ensures u == v
    decreases |u|
  {
    if u != [] {
      assert |v| == |u|;
      assert Key(u)[..2] == Cell(u[0]) && Key(v)[..2] == Cell(v[0]);
      assert Key(u)[2..] == Key(u[1..]) && Key(v)[2..] == Key(v[1..]);
      KeyInjective(u[1..], v[1..]);
      assert u == [u[0]] + u[1..] && v == [v[0]] + v[1..];
    }
  }

  /** A key without `_` is followed by the first `_` of the cache file
      name, so the name gives back both the key and the original name. */
  lemma CacheFilenameInjective(k1: string, n1: string, k2: string, n2: string)
    requires Avoids(k1, '_') && Avoids(k2, '_')
    requires CacheFilename(k1, n1) == CacheFilename(k2, n2)
    ensures k1 == k2 && n1 == n2
  {
    var s := CacheFilename(k1, n1);
    assert s[|k1|] == '_' && s[|k2|] == '_';
    assert forall j :: 0 <= j < |k1| ==> s[j] == k1[j];
    assert forall j :: 0 <= j < |k2| ==> s[j] == k2[j];
    assert |k1| == |k2|;
    assert k1 == s[..|k1|] == k2;
    assert n1 == s[|k1| + 1..] == n2;
  }

  /** `datetime.now() - cached_date > timedelta(days=self.expire_days)` */
  predicate Expired(e: Entry, now: int, expireDays: int)
  {
    now - e.date > expireDays * SecondsPerDay
  }

  /** Every entry sits under the key of its own url and names its copy
      `<key>_<original name>`, as `add_to_cache` files it. */
  predicate WellKeyed(index: map<string, Entry>)
  {
    forall k :: k in index ==>
      Key(index[k].url) == k && index[k].filename == CacheFilename(k, index[k].originalName)
  }

  /** In a well-keyed index no two entries share a cached file. */
  lemma DistinctFiles(index: map<string, Entry>, k1: string, k2: string)
    requires WellKeyed(index) && k1 in index && k2 in index
    requires index[k1].filename == index[k2].filename
    ensures k1 == k2
  {
    CacheFilenameInjective(k1, index[k1].originalName, k2, index[k2].originalName);
  }

  /** When the index is well keyed, the file of the entry under `key` is no
      other entry's file. */
  lemma OthersFiledApart(index: map<string, Entry>, key: string)
    requires key in index
    ensures WellKeyed(index) ==>
              forall k :: k in index && k != key ==> index[k].filename != index[key].filename
  {
    if WellKeyed(index) {
      forall k | k in index && k != key
        ensures index[k].filename != index[key].filename
      {
        if index[k].filename == index[key].filename {
          DistinctFiles(index, k, key);
        }
      }
    }
  }

  /** `remove_cache(url)`: delete the cached file if it is there and the entry. */
  function Removed(st: Store, url: string): (r: Store)
    ensures Key(url) !in r.index
    ensures Key(url) !in st.index ==> r == st
    ensures forall k :: k in st.index && k != Key(url) ==> k in r.index && r.index[k] == st.index[k]
    ensures r.index.Keys <= st.index.Keys
    ensures Key(url) in st.index ==> st.index[Key(url)].filename !in r.files
    ensures forall n :: n in st.files && (Key(url) !in st.index || n != st.index[Key(url)].filename) ==>
              n in r.files && r.files[n] == st.files[n]
    ensures WellKeyed(st.index) ==> WellKeyed(r.index)
    ensures WellKeyed(st.index) ==>
              forall k :: k in r.index && r.index[k].filename in st.files ==>
                r.index[k].filename in r.files && r.files[r.index[k].filename] == st.files[r.index[k].filename]
  {
    var key := Key(url);
    if key in st.index then
      OthersFiledApart(st.index, key);
      Store(st.index - {key}, st.files - {st.index[key].filename})
    else st
  }

  /** `is_cached(url)`: the answer and the store it leaves, since an expired
      entry is removed on the way. */
  function Lookup(st: Store, url: string, now: int, expireDays: int): (bool, Store)
  {
    var key := Key(url);
    if key !in st.index then (false, st)
    else if Expired(st.index[key], now, expireDays) then (false, Removed(st, url))
    else (st.index[key].filename in st.files, st)
  }

  /** `get_cached_file(url)`: the cached file's name, or None. */
  function CachedFile(st: Store, url: string, now: int, expireDays: int): (Option<string>, Store)
  {
    var (hit, st') := Lookup(st, url, now, expireDays);
    if !hit then (None, st') else (Some(st'.index[Key(url)].filename), st')
  }

  /** `add_to_cache(url, source)` once the copy has succeeded: the copy under
      the key-prefixed name and a fresh entry replacing any earlier one. */
  function Added(st: Store, url: string, sourceName: string, size: nat, now: int): Store
  {
    var name := CacheFilename(Key(url), sourceName);
    Store(st.index[Key(url) := Entry(url, name, sourceName, now, size)], st.files[name := size])
  }

  /** The keys `clear_expired` collects. */
  function ExpiredKeys(st: Store, now: int, expireDays: int): set<string>
  {
    set k | k in st.index && Expired(st.index[k], now, expireDays)
  }

  /** The cached file names of the entries under `keys`. */
  function NamesOf(index: map<string, Entry>, keys: set<string>): set<string>
  {
    set k | k in keys && k in index :: index[k].filename
  }

  /** `clear_expired()`: what the cache directory holds afterwards. */
  function Cleared(st: Store, now: int, expireDays: int): Store
  {
    var gone := ExpiredKeys(st, now, expireDays);
    Store(st.index - gone, st.files - NamesOf(st.index, gone))
  }

  /** A url whose key is not in the index is not cached, and the lookup
      changes nothing. */
  lemma LookupAbsent(st: Store, url: string, now: int, expireDays: int)
    requires Key(url) !in st.index
    ensures Lookup(st, url, now, expireDays) == (false, st)
    ensures CachedFile(st, url, now, expireDays) == (None, st)
  {
  }

  /** `get_cached_file` answers None exactly when `is_cached` answers false,
      and otherwise names a file that exists in the directory. */
  lemma {:induction false} CachedFileAgrees(st: Store, url: string, now: int, expireDays: int)
    ensures CachedFile(st, url, now, expireDays).0.None? <==> !Lookup(st, url, now, expireDays).0
    ensures CachedFile(st, url, now, expireDays).1 == Lookup(st, url, now, expireDays).1
    ensures CachedFile(st, url, now, expireDays).0.Some? ==>
              CachedFile(st, url, now, expireDays).0.value in st.files &&
              CachedFile(st, url, now, expireDays).0.value == st.index[Key(url)].filename
  {
  }

  /** An entry added at time `t` is found as long as no more than
      `expire_days` days have passed (the test is a strict `>`) and its file
      is still there; the lookup then changes nothing. */
  lemma AddedThenCached(st: Store, url: string, sourceName: string, size: nat, t: int, now: int, expireDays: int)
    requires now - t <= expireDays * SecondsPerDay
    ensures Lookup(Added(st, url, sourceName, size, t), url, now, expireDays) ==
            (true, Added(st, url, sourceName, size, t))
    ensures CachedFile(Added(st, url, sourceName, size, t), url, now, expireDays).0 ==
            Some(CacheFilename(Key(url), sourceName))
  {
  }

  /** One day later the same entry has expired: the lookup answers false and
      removes both the entry and its file. */
  lemma AddedThenExpired(st: Store, url: string, sourceName: string, size: nat, t: int, now: int, expireDays: int)
    requires now - t > expireDays * SecondsPerDay
    ensures var (hit, st') := Lookup(Added(st, url, sourceName, size, t), url, now, expireDays);
            !hit && Key(url) !in st'.index && CacheFilename(Key(url), sourceName) !in st'.files
  {
  }

  /** A lookup that meets an expired entry removes it and its file, answers
      false, and a second lookup finds nothing and changes nothing. */
  lemma ExpiredLookupRemoves(st: Store, url: string, now: int, expireDays: int)
    requires Key(url) in st.index && Expired(st.index[Key(url)], now, expireDays)
    ensures var (hit, st') := Lookup(st, url, now, expireDays);
            !hit && st' == Removed(st, url) && Key(url) !in st'.index &&
            st.index[Key(url)].filename !in st'.files &&
            Lookup(st', url, now, expireDays) == (false, st')
  {
  }

  /** `remove_cache` is idempotent. */
  lemma RemovedIdempotent(st: Store, url: string)
    ensures Removed(Removed(st, url), url) == Removed(st, url)
  {
  }

  /** `add_to_cache` replaces the entry for the url and touches no other entry. */
  lemma AddedReplaces(st: Store, url: string, sourceName: string, size: nat, now: int)
    ensures Key(url) in Added(st, url, sourceName, size, now).index
    ensures Added(st, url, sourceName, size, now).index[Key(url)] ==
            Entry(url, CacheFilename(Key(url), sourceName), sourceName, now, size)
    ensures forall k :: k != Key(url) ==>
              (k in Added(st, url, sourceName, size, now).index <==> k in st.index)
    ensures forall k :: k != Key(url) && k in st.index ==>
              Added(st, url, sourceName, size, now).index[k] == st.index[k]
    ensures WellKeyed(st.index) ==> WellKeyed(Added(st, url, sourceName, size, now).index)
    ensures WellKeyed(st.index) ==>
              forall k :: k != Key(url) && k in st.index && st.index[k].filename in st.files ==>
                st.index[k].filename in Added(st, url, sourceName, size, now).files &&
                Added(st, url, sourceName, size, now).files[st.index[k].filename] == st.files[st.index[k].filename]
  {
    if WellKeyed(st.index) {
      var name := CacheFilename(Key(url), sourceName);
      forall k | k != Key(url) && k in st.index
        ensures st.index[k].filename != name
      {
        if st.index[k].filename == name {
          CacheFilenameInjective(k, st.index[k].originalName, Key(url), sourceName);
        }
      }
    }
  }

  /** `clear_expired` removes exactly the expired entries, keeps the others
      as they were, and reports as many as it removed. */
  lemma ClearedExactly(st: Store, now: int, expireDays: int)
    ensures forall k :: k in Cleared(st, now, expireDays).index <==>
              k in st.index && !Expired(st.index[k], now, expireDays)
    ensures forall k :: k in Cleared(st, now, expireDays).index ==>
              Cleared(st, now, expireDays).index[k] == st.index[k]
    ensures |Cleared(st, now, expireDays).index| + |ExpiredKeys(st, now, expireDays)| == |st.index|
    ensures WellKeyed(st.index) ==>
              forall k :: k in Cleared(st, now, expireDays).index && st.index[k].filename in st.files ==>
                st.index[k].filename in Cleared(st, now, expireDays).files &&
                Cleared(st, now, expireDays).files[st.index[k].filename] == st.files[st.index[k].filename]
  {
    if WellKeyed(st.index) {
      var gone := ExpiredKeys(st, now, expireDays);
      forall k | k in st.index && k !in gone
        ensures st.index[k].filename !in NamesOf(st.index, gone)
      {
        if st.index[k].filename in NamesOf(st.index, gone) {
          var g :| g in gone && g in st.index && st.index[g].filename == st.index[k].filename;
          DistinctFiles(st.index, k, g);
        }
      }
    }
  }

  /** The store once the expired entries under `done` have been removed. */
  function PartlyCleared(st0: Store, done: set<string>): Store
  {
    Store(st0.index - done, st0.files - NamesOf(st0.index, done))
  }

  /** One round of `clear_expired`'s removal loop: removing the entry under
      `key` through its url takes it off the index and its file off the
      directory, and leaves the index well keyed. */
  lemma ClearStep(st0: Store, done: set<string>, key: string)
    requires WellKeyed(st0.index) && key in st0.index && key !in done
    ensures key in PartlyCleared(st0, done).index
    ensures PartlyCleared(st0, done).index[key].url == st0.index[key].url
    ensures Removed(PartlyCleared(st0, done), st0.index[key].url) == PartlyCleared(st0, done + {key})
    ensures WellKeyed(PartlyCleared(st0, done + {key}).index)
  {
    var url := st0.index[key].url;
    var st := PartlyCleared(st0, done);
    assert Key(url) == key && key in st.index;
    assert NamesOf(st0.index, done + {key}) == NamesOf(st0.index, done) + {st0.index[key].filename};
  }

  class CacheManager {
    var index: map<string, Entry>
    var files: map<string, nat>
    const expireDays: int

    ghost predicate Valid()
      reads this
    {
      WellKeyed(index)
    }

    function State(): Store
      reads this
    {
      Store(index, files)
    }

    /** `__init__` with `_load_index`: `loaded` is what the directory held,
        an index this class wrote on an earlier run, or an empty one. */
    constructor (expireDays: int, loaded: Store)
      requires WellKeyed(loaded.index)
      ensures Valid() && State() == loaded && this.expireDays == expireDays
    {
      index := loaded.index;
      files := loaded.files;
      this.expireDays := expireDays;
    }

    method IsCached(url: string, now: int) returns (b: bool)
      requires Valid()
      modifies this
      ensures Valid()
      ensures (b, State()) == Lookup(old(State()), url, now, expireDays)
    {
      var key := Key(url);
      if key !in index {
        return false;
      }
      var info := index[key];
      if Expired(info, now, expireDays) {
        RemoveCache(url);
        return false;
      }
      b := info.filename in files;
    }

    method GetCachedFile(url: string, now: int) returns (p: Option<string>)
      requires Valid()
      modifies this
      ensures Valid()
      ensures (p, State()) == CachedFile(old(State()), url, now, expireDays)
    {
      var hit := IsCached(url, now);
      if !hit {
        return None;
      }
      p := Some(index[Key(url)].filename);
    }

    /** `copyOk` says whether `shutil.copy2` succeeds; when it raises, the
        exception leaves the cache as it was and reaches the caller as None. */
    method AddToCache(url: string, sourceName: string, size: nat, now: int, copyOk: bool) returns (p: Option<string>)
      requires Valid()
      modifies this
      ensures Valid()
      ensures copyOk ==> p == Some(CacheFilename(Key(url), sourceName)) && State() == Added(old(State()), url, sourceName, size, now)
      ensures !copyOk ==> p == None && State() == old(State())
    {
      if !copyOk {
        return None;
      }
      var key := Key(url);
      var name := CacheFilename(key, sourceName);
      files := files[name := size];
      index := index[key := Entry(url, name, sourceName, now, size)];
      p := Some(name);
    }

    method RemoveCache(url: string)
      requires Valid()
      modifies this
      ensures Valid()
      ensures State() == Removed(old(State()), url)
    {
      var key := Key(url);
      if key in index {
        var info := index[key];
        if info.filename in files {
          files := files - {info.filename};
        }
        index := index - {key};
      }
    }

    /** Collects the expired keys, then removes each through `remove_cache`
        of its entry's url; answers how many there were. */
    method ClearExpired(now: int) returns (count: nat)
      requires Valid()
      modifies this
      ensures Valid()
      ensures State() == Cleared(old(State()), now, expireDays)
      ensures count == |ExpiredKeys(old(State()), now, expireDays)|
    {
      var expired := ExpiredKeys(State(), now, expireDays);
      RemoveEach(expired);
      count := |expired|;
    }

    /** `for key in expired_keys: self.remove_cache(self.index[key]['url'])` */
    method RemoveEach(keys: set<string>)
      requires Valid() && keys <= index.Keys
      modifies this
      ensures Valid()
      ensures State() == PartlyCleared(old(State()), keys)
    {
      ghost var st0 := State();
      var todo := keys;
      while todo != {}
        invariant todo <= keys
        invariant State() == PartlyCleared(st0, keys - todo)
        invariant Valid()
        decreases |todo|
      {
        var key :| key in todo;
        ClearStep(st0, keys - todo, key);
        RemoveCache(index[key].url);
        TakeOne(keys, todo, key);
        todo := todo - {key};
      }
      assert keys - todo == keys;
    }
  }
}
