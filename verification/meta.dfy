/** src/rosdep2/meta.py: the metadata cache that `rosdep update` fills and later runs
    read back. A category is stored as a pickled `CacheWrapper` in a file named by the
    hash of the category under the cache directory, and remembered in the database's
    `_loaded` map. Values are immutable here, which is what the deep copies on write
    and on read achieve in the source: no caller can change stored data. */
module Meta {
  import opened Yaml
  import opened Strings

  /** `PICKLE_CACHE_EXT`. */
  const PickleCacheExt := ".pickle"

  /** `CacheWrapper`: the writing rosdep's version, the category and the data. */
  datatype CacheWrapper = CacheWrapper(rosdepVersion: string, categoryName: string, data: Value)

  /** The cache directory's files: path to the wrapper pickled in it. */
  type Files = map<string, CacheWrapper>

  /** `MetaDatabase`: its directory and the categories loaded so far. */
  datatype MetaDatabase = MetaDatabase(cacheDir: string, loaded: map<string, CacheWrapper>)

  /** A database that has loaded nothing yet. */
  function Fresh(cacheDir: string): (db: MetaDatabase)
    ensures db.loaded == map[]
  {
    MetaDatabase(cacheDir, map[])
  }

  /** The file a category is pickled to; `hash` is `compute_filename_hash` (a SHA-1
      hex digest). */
  function CacheFile(cacheDir: string, hash: string -> string, category: string): string {
    PathJoin(cacheDir, hash(category) + PickleCacheExt)
  }

  /** `set` with `write_cache_file`: the wrapper is written to the category's file (an
      old unsuffixed file of the same hash is removed) and kept as loaded. */
  function Set(db: MetaDatabase, files: Files, hash: string -> string, version: string, category: string, metadata: Value)
    : (r: (MetaDatabase, Files))
    ensures r.0.cacheDir == db.cacheDir
    ensures r.0.loaded == db.loaded[category := CacheWrapper(version, category, metadata)]
    ensures CacheFile(db.cacheDir, hash, category) in r.1 && r.1[CacheFile(db.cacheDir, hash, category)].data == metadata
  {
    var wrapper := CacheWrapper(version, category, metadata);
    var stale := PathJoin(db.cacheDir, hash(category));
    var path := CacheFile(db.cacheDir, hash, category);
    (db.(loaded := db.loaded[category := wrapper]), (files - {stale})[path := wrapper])
  }

  /** `get`: a category not loaded yet is read from its file when there is one; the
      stored data, or `default`. The database comes back with what was loaded. */
  function Get(db: MetaDatabase, files: Files, hash: string -> string, category: string, default: Value)
    : (r: (MetaDatabase, Value))
    ensures r.0.cacheDir == db.cacheDir
    ensures category in db.loaded ==> r == (db, db.loaded[category].data)
    ensures category !in db.loaded && CacheFile(db.cacheDir, hash, category) !in files ==> r == (db, default)
    ensures category !in db.loaded && CacheFile(db.cacheDir, hash, category) in files ==>
              r.1 == files[CacheFile(db.cacheDir, hash, category)].data
  {
    var db' := LoadFromCache(db, files, hash, category);
    if category in db'.loaded then (db', db'.loaded[category].data) else (db', default)
  }

  /** `_load_from_cache`: a missing file is not an error. */
  function LoadFromCache(db: MetaDatabase, files: Files, hash: string -> string, category: string): (r: MetaDatabase)
    ensures r.cacheDir == db.cacheDir
    ensures category in db.loaded ==> r == db
  {
    if category in db.loaded then db
    else
      var path := CacheFile(db.cacheDir, hash, category);
      if path in files then db.(loaded := db.loaded[category := files[path]]) else db
  }

  /** `get` after `set` of the same category returns what was set. */
  lemma GetAfterSet(db: MetaDatabase, files: Files, hash: string -> string, version: string, category: string,
                    metadata: Value, default: Value)
    ensures var (db', files') := Set(db, files, hash, version, category, metadata);
            Get(db', files', hash, category, default).1 == metadata
  {
  }

  /** A later `set` of the same category wins. */
  lemma LaterSetWins(db: MetaDatabase, files: Files, hash: string -> string, version: string, category: string,
                     first: Value, second: Value, default: Value)
    ensures var (db1, files1) := Set(db, files, hash, version, category, first);
            var (db2, files2) := Set(db1, files1, hash, version, category, second);
            Get(db2, files2, hash, category, default).1 == second
  {
  }

  /** An unknown category reads as the default. */
  lemma GetUnknown(cacheDir: string, files: Files, hash: string -> string, category: string, default: Value)
    requires CacheFile(cacheDir, hash, category) !in files
    ensures Get(Fresh(cacheDir), files, hash, category, default).1 == default
  {
  }

  /** A fresh database over the same cache directory sees what an earlier one set. */
  lemma FreshSeesDisk(db: MetaDatabase, files: Files, hash: string -> string, version: string, category: string,
                      metadata: Value, default: Value)
    ensures var (db', files') := Set(db, files, hash, version, category, metadata);
            Get(Fresh(db.cacheDir), files', hash, category, default).1 == metadata
  {
  }

  /** Setting one category leaves another's value alone, as long as their hashes
      differ. */
  lemma SetKeepsOthers(db: MetaDatabase, files: Files, hash: string -> string, version: string, category: string,
                       other: string, metadata: Value, default: Value)
    requires category != other && hash(category) != hash(other)
    requires hash(other) + PickleCacheExt != hash(category)
    ensures var (db', files') := Set(db, files, hash, version, category, metadata);
            Get(db', files', hash, other, default).1 == Get(db, files, hash, other, default).1
  {
    SuffixInjective(hash(other), hash(category), PickleCacheExt);
    PathJoinInjective(db.cacheDir, hash(other) + PickleCacheExt, hash(category) + PickleCacheExt);
    PathJoinInjective(db.cacheDir, hash(other) + PickleCacheExt, hash(category));
  }

  /** Appending one suffix to two different names keeps them different. */
  lemma SuffixInjective(a: string, b: string, suffix: string)
    requires a != b
    ensures a + suffix != b + suffix
  {
    if |a| == |b| {
      assert (a + suffix)[..|a|] == a && (b + suffix)[..|b|] == b;
    }
  }

  /** Joining one directory with two different names gives two different paths. */
  lemma PathJoinInjective(dir: string, a: string, b: string)
    requires a != b
    ensures PathJoin(dir, a) != PathJoin(dir, b)
  {
    if dir == "" || dir[|dir| - 1] == '/' {
      assert PathJoin(dir, a)[|dir|..] == a && PathJoin(dir, b)[|dir|..] == b;
    } else {
      assert PathJoin(dir, a)[|dir| + 1..] == a && PathJoin(dir, b)[|dir| + 1..] == b;
    }
  }
}
