/** `file-cache.ts` and `null-cache.ts`: memoising parser results across runs. SHA-256,
    the text of the tool's own `package.json`, `JSON.stringify`/`JSON.parse` and the file
    system are given to the cache; the file system is a map from path to text. */
module Caches {
  import opened Wrappers
  import opened JsArraySort

  /** The files the cache reads and writes. */
  class Disk {
    var files: map<string, string>

    constructor(files: map<string, string>)
      ensures this.files == files
    {
      this.files := files;
    }

    /** `readFileSync(path)`; `None` where it throws because the file is missing. */
    function Read(path: string): (r: Option<string>)
      reads this
      ensures r.Some? <==> path in files
      ensures r.Some? ==> r.value == files[path]
    {
      if path in files then Some(files[path]) else None
    }

    /** `writeFileSync(path, text)`. */
    method WriteFile(path: string, text: string)
      modifies this
      ensures files == old(files)[path := text]
    {
      files := files[path := text];
    }

    /** `rmSync(path, {force: true})`: a missing file is no error. */
    method RemoveFile(path: string)
      modifies this
      ensures files == old(files) - {path}
    {
      files := files - {path};
    }

    /** `renameSync(from, to)`. */
    method RenameFile(from: string, to: string)
      requires from in files
      modifies this
      ensures files == (old(files) - {from})[to := old(files)[from]]
    {
      files := (files - {from})[to := files[from]];
    }
  }

  /** What `JSON.parse` makes of a cache file: it throws, it gives `null`, or it gives an
      object of stored results. */
  datatype Parsed<R> = Unparsable | NullValue | Object(entries: map<string, R>)

  const CacheFileSuffix: string := "-ngx-translate-extract-cache.json"

  /** `readCache`: the original text and the loaded store. A missing or unparsable file
      gives no text and an empty store; `null` gives an empty store. */
  function LoadCache<R>(text: Option<string>, parse: string -> Parsed<R>): (r: (Option<string>, map<string, R>))
    ensures r.0.Some? ==> r.0 == text
    ensures r.1 != map[] ==> text.Some? && parse(text.value) == Object(r.1)
    ensures text.None? || parse(text.value).Unparsable? ==> r.0.None? && r.1 == map[]
    ensures text.Some? && parse(text.value).Object? ==> r == (text, parse(text.value).entries)
  {
    match text
    case None => (None, map[])
    case Some(t) =>
      match parse(t)
      case Unparsable => (None, map[])
      case NullValue => (Some(t), map[])
      case Object(entries) => (Some(t), entries)
  }

  function PairKeys<R>(pairs: seq<(string, R)>): (r: seq<string>)
    ensures |r| == |pairs|
    ensures forall i :: 0 <= i < |r| ==> r[i] == pairs[i].0
  {
    seq(|pairs|, i requires 0 <= i < |pairs| => pairs[i].0)
  }

  /** `sortByKey(unordered)`: the entries listed under `keys` (the object's keys in
      insertion order), in code-unit order of their keys. */
  function SortByKey<R>(keys: seq<string>, unordered: map<string, R>): (r: seq<(string, R)>)
    requires forall i :: 0 <= i < |keys| ==> keys[i] in unordered
    ensures |r| == |keys|
    ensures forall i :: 0 <= i < |r| ==> r[i].0 in unordered && r[i].1 == unordered[r[i].0]
    ensures multiset(PairKeys(r)) == multiset(keys)
    ensures Sorted(PairKeys(r), CompareCodeUnits)
    ensures Distinct(keys) ==> Distinct(PairKeys(r))
  {
    var sorted := SortBy(keys, CompareCodeUnits);
    SortedKeys(keys, unordered);
    var r := EntriesOf(sorted, unordered);
    SortedEntries(keys, unordered, r);
    r
  }

  /** The entries of `m` under the keys `ks`, in that order. */
  function EntriesOf<R>(ks: seq<string>, m: map<string, R>): (r: seq<(string, R)>)
    requires forall i :: 0 <= i < |ks| ==> ks[i] in m
    ensures |r| == |ks| && forall i :: 0 <= i < |r| ==> r[i] == (ks[i], m[ks[i]])
  {
    seq(|ks|, i requires 0 <= i < |ks| => (ks[i], m[ks[i]]))
  }

  /** The keys `SortByKey` lists, in the order it lists them. */
  lemma SortedKeys<R>(keys: seq<string>, unordered: map<string, R>)
    requires forall i :: 0 <= i < |keys| ==> keys[i] in unordered
    ensures var sorted := SortBy(keys, CompareCodeUnits);
      && |sorted| == |keys|
      && (forall i :: 0 <= i < |sorted| ==> sorted[i] in unordered)
      && Sorted(sorted, CompareCodeUnits)
      && (Distinct(keys) ==> Distinct(sorted))
  {
    var sorted := SortBy(keys, CompareCodeUnits);
    assert |sorted| == |multiset(sorted)| == |multiset(keys)| == |keys|;
    forall i | 0 <= i < |sorted| ensures sorted[i] in unordered {
      assert sorted[i] in multiset(sorted);
      assert sorted[i] in multiset(keys);
    }
    CodeUnitOrderConsistent();
    SortBySorted(keys, CompareCodeUnits);
    if Distinct(keys) {
      SortByDistinct(keys, CompareCodeUnits);
    }
  }

  /** The entries of the sorted keys carry what `SortByKey` promises. */
  lemma SortedEntries<R>(keys: seq<string>, unordered: map<string, R>, r: seq<(string, R)>)
    requires forall i :: 0 <= i < |keys| ==> keys[i] in unordered
    requires var sorted := SortBy(keys, CompareCodeUnits);
      && (forall i :: 0 <= i < |sorted| ==> sorted[i] in unordered)
      && |r| == |sorted| && forall i :: 0 <= i < |r| ==> r[i] == (sorted[i], unordered[sorted[i]])
    ensures |r| == |keys|
    ensures forall i :: 0 <= i < |r| ==> r[i].0 in unordered && r[i].1 == unordered[r[i].0]
    ensures multiset(PairKeys(r)) == multiset(keys)
    ensures Sorted(PairKeys(r), CompareCodeUnits)
    ensures Distinct(keys) ==> Distinct(PairKeys(r))
  {
    var sorted := SortBy(keys, CompareCodeUnits);
    SortedKeys(keys, unordered);
    assert PairKeys(r) == sorted;
  }

  /** The object `JSON.parse` rebuilds from a list of entries (a later duplicate wins). */
  function PairsMap<R>(pairs: seq<(string, R)>): map<string, R> {
    if pairs == [] then map[] else PairsMap(pairs[..|pairs| - 1])[pairs[|pairs| - 1].0 := pairs[|pairs| - 1].1]
  }

  lemma {:induction false} PairsMapDomain<R>(pairs: seq<(string, R)>, k: string)
    ensures k in PairsMap(pairs) <==> k in PairKeys(pairs)
    ensures k in PairsMap(pairs) ==> exists i :: 0 <= i < |pairs| && pairs[i] == (k, PairsMap(pairs)[k])
  {
    if pairs != [] {
      var init := pairs[..|pairs| - 1];
      PairsMapDomain(init, k);
      assert PairKeys(pairs) == PairKeys(init) + [pairs[|pairs| - 1].0];
      if k in PairsMap(init) && k != pairs[|pairs| - 1].0 {
        var i :| 0 <= i < |init| && init[i] == (k, PairsMap(init)[k]);
        assert pairs[i] == init[i];
      }
    }
  }

  /** Reading back the sorted entries rebuilds the object they came from. */
  lemma PairsMapSortByKey<R>(keys: seq<string>, tapped: map<string, R>)
    requires forall k :: k in keys <==> k in tapped
    ensures PairsMap(SortByKey(keys, tapped)) == tapped
  {
    var pairs := SortByKey(keys, tapped);
    var m := PairsMap(pairs);
    forall k ensures k in m <==> k in tapped {
      PairsMapDomain(pairs, k);
      assert k in PairKeys(pairs) <==> k in multiset(PairKeys(pairs));
      assert k in keys <==> k in multiset(keys);
    }
    forall k | k in m ensures m[k] == tapped[k] {
      PairsMapDomain(pairs, k);
    }
  }

  /** What `persist` writes is what the next run loads, provided the JSON codec
      round-trips. */
  lemma PersistedStoreReloads<R>(keys: seq<string>, tapped: map<string, R>, serialize: seq<(string, R)> -> string, parse: string -> Parsed<R>)
    requires forall k :: k in keys <==> k in tapped
    requires parse(serialize(SortByKey(keys, tapped))) == Object(PairsMap(SortByKey(keys, tapped)))
    ensures LoadCache(Some(serialize(SortByKey(keys, tapped))), parse) == (Some(serialize(SortByKey(keys, tapped))), tapped)
  {
    PairsMapSortByKey(keys, tapped);
  }

  /** `FileCache`: results stored under a hash of the tool's version and the caller's key;
      the entries used in a run ("tapped") are written back when the run ends. */
  class FileCache<R> {
    const cacheFile: string
    const disk: Disk
    /** `getHash`: SHA-256 in hexadecimal. */
    const hash: string -> string
    /** The text of the tool's own `package.json`. */
    const packageJson: string
    /** `JSON.stringify(entries, null, 2)` of an object with these entries in this order. */
    const serialize: seq<(string, R)> -> string
    const parse: string -> Parsed<R>

    var tapped: map<string, R>
    /** The keys of `tapped` in insertion order, as `Object.keys` lists them. */
    var tappedKeys: seq<string>
    var cached: Option<map<string, R>>
    var originalCache: Option<string>
    var versionHash: Option<string>
    /** How many times a generator has been run. */
    ghost var generatorCalls: nat

    /** The store is loaded together with the version hash; every tapped entry agrees
        with the loaded store where that has the key. */
    ghost predicate Valid()
      reads this
    {
      && (forall k :: k in tappedKeys <==> k in tapped)
      && Distinct(tappedKeys)
      && (cached.None? ==> tapped == map[] && originalCache.None? && versionHash.None?)
      && (cached.Some? ==> versionHash == Some(hash(packageJson)))
      && (forall k :: k in tapped && cached.Some? && k in cached.value ==> tapped[k] == cached.value[k])
    }

    constructor(cacheFile: string, disk: Disk, hash: string -> string, packageJson: string,
                serialize: seq<(string, R)> -> string, parse: string -> Parsed<R>)
      ensures this.cacheFile == cacheFile && this.disk == disk && this.hash == hash
      ensures this.packageJson == packageJson && this.serialize == serialize && this.parse == parse
      ensures tapped == map[] && tappedKeys == [] && cached.None? && originalCache.None? && versionHash.None?
      ensures generatorCalls == 0
      ensures Valid()
    {
      this.cacheFile := cacheFile;
      this.disk := disk;
      this.hash := hash;
      this.packageJson := packageJson;
      this.serialize := serialize;
      this.parse := parse;
      tapped := map[];
      tappedKeys := [];
      cached := None;
      originalCache := None;
      versionHash := None;
      generatorCalls := 0;
    }

    /** `getCacheFile`: the configured name followed by the fixed suffix. */
    function CacheFilePath(): (r: string)
      ensures |r| == |cacheFile| + |CacheFileSuffix|
      ensures r[..|cacheFile|] == cacheFile && r[|cacheFile|..] == CacheFileSuffix
    {
      cacheFile + CacheFileSuffix
    }

    /** The temporary file `persist` writes first: never the cache file itself. */
    function TmpFile(newCache: string): (r: string)
      ensures |r| > |CacheFilePath()| && r[..|CacheFilePath()|] == CacheFilePath()
    {
      CacheFilePath() + "~" + hash(newCache)
    }

    /** The lookup key: the hash of the version hash followed by the caller's key. */
    function Key(uniqueContents: string): string
      reads this
      requires versionHash.Some?
    {
      hash(versionHash.value + uniqueContents)
    }

    /** `readCache`. */
    method ReadCache()
      modifies this
      ensures var loaded := LoadCache(disk.Read(CacheFilePath()), parse);
        originalCache == loaded.0 && cached == Some(loaded.1)
      ensures tapped == old(tapped) && tappedKeys == old(tappedKeys) && versionHash == old(versionHash)
      ensures generatorCalls == old(generatorCalls)
    {
      var loaded := LoadCache(disk.Read(CacheFilePath()), parse);
      originalCache := loaded.0;
      cached := Some(loaded.1);
    }

    /** `get(uniqueContents, generator)`: the store is loaded on the first call only; a
        stored result is returned without running the generator, otherwise the generator
        runs; either way the result is recorded as tapped. The loaded store itself never
        changes, so the same miss runs the generator again. */
    method Get(uniqueContents: string, generator: () -> R) returns (r: R)
      requires Valid()
      modifies this
      ensures Valid()
      ensures old(cached).Some? ==> cached == old(cached) && originalCache == old(originalCache) && versionHash == old(versionHash)
      ensures old(cached).None? ==>
        var loaded := LoadCache(disk.Read(CacheFilePath()), parse);
        originalCache == loaded.0 && cached == Some(loaded.1) && versionHash == Some(hash(packageJson))
      ensures cached.Some? && versionHash.Some?
      ensures Key(uniqueContents) in cached.value ==> r == cached.value[Key(uniqueContents)] && generatorCalls == old(generatorCalls)
      ensures Key(uniqueContents) !in cached.value ==> r == generator() && generatorCalls == old(generatorCalls) + 1
      ensures tapped == old(tapped)[Key(uniqueContents) := r]
      ensures tappedKeys == old(tappedKeys) + if Key(uniqueContents) in old(tapped) then [] else [Key(uniqueContents)]
    {
      if cached.None? {
        ReadCache();
        versionHash := Some(hash(packageJson));
      }
      var key := hash(versionHash.value + uniqueContents);
      if key !in tapped {
        tappedKeys := tappedKeys + [key];
      }
      if key in cached.value {
        r := cached.value[key];
        tapped := tapped[key := r];
        return;
      }
      r := generator();
      generatorCalls := generatorCalls + 1;
      tapped := tapped[key := r];
    }

    /** The text `persist` would write: the tapped entries sorted by key. */
    function NewCache(): string
      reads this
      requires Valid()
    {
      serialize(SortByKey(tappedKeys, tapped))
    }

    /** `persist`: nothing happens when the text is the one loaded; otherwise it goes to a
        temporary file that then replaces the cache file. */
    method Persist()
      requires Valid()
      modifies disk
      ensures originalCache == Some(NewCache()) ==> disk.files == old(disk.files)
      ensures originalCache != Some(NewCache()) ==>
        disk.files == (old(disk.files) - {TmpFile(NewCache())})[CacheFilePath() := NewCache()]
    {
      var newCache := serialize(SortByKey(tappedKeys, tapped));
      if originalCache == Some(newCache) {
        return;
      }
      var file := CacheFilePath();
      var tmpFile := file + "~" + hash(newCache);
      assert tmpFile == TmpFile(newCache);
      disk.WriteFile(tmpFile, newCache);
      disk.RemoveFile(file);
      disk.RenameFile(tmpFile, file);
    }
  }

  /** What a persisted store holds: exactly the tapped entries, so loaded entries that
      were not used in the run are dropped. */
  lemma PersistedEntries<R>(keys: seq<string>, tapped: map<string, R>, k: string)
    requires forall k :: k in keys <==> k in tapped
    ensures k in PairKeys(SortByKey(keys, tapped)) <==> k in tapped
  {
    var pairs := SortByKey(keys, tapped);
    assert k in PairKeys(pairs) <==> k in multiset(PairKeys(pairs));
    assert k in keys <==> k in multiset(keys);
  }

  /** `NullCache`: no memory at all. */
  class NullCache<R> {
    constructor()
    {
    }

    /** `get`: the generator's result, whatever the key. */
    method Get(uniqueContents: string, generator: () -> R) returns (r: R)
      ensures r == generator()
    {
      r := generator();
    }

    /** `persist`: does nothing. */
    method Persist()
      ensures unchanged(this)
    {
    }
  }
}
