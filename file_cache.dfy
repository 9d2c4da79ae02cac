/**
 * src/cache/file_cache.rs: writing a cache file, reading (and lazily invalidating) the first
 * file of a cache directory, and deleting the whole cache.
 *
 * Each operation is given twice: a function of the file-system tree that states its effect and
 * result, and a method that performs it step by step on a `Disk`, proved to agree with it.
 */
module FileCache {
  import opened Wrappers
  import opened CurrencyCodes
  import opened Cache
  import opened FileSystem

  const NotEnabled := IoError(Other, "Cache is not enabled")
  const NoCacheFile := IoError(NotFound, "No cache file found")
  const CacheExpired := IoError(Other, "Cache file is expired")
  const InvalidLifetime := IoError(Other, "Invalid cache lifetime")
  const WriteFailed := IoError(Other, "Failed to write cache file")

  const I64Max := 0x7fff_ffff_ffff_ffff

  /** Whole seconds in chrono's largest `TimeDelta` (`i64::MAX` milliseconds). */
  const MaxDeltaSeconds := I64Max / 1000

  /** `chrono::Duration::try_hours`, as a number of seconds. */
  function TryHours(hours: int): (r: Option<int>)
    ensures r.Some? <==> -MaxDeltaSeconds <= hours * 3600 <= MaxDeltaSeconds
    ensures r.Some? ==> r.value == hours * 3600
  {
    var secs := hours * 3600;
    if secs < -I64Max - 1 || I64Max < secs then None
    else if secs < -MaxDeltaSeconds || MaxDeltaSeconds < secs then None
    else Some(secs)
  }

  /** Every `i32` lifetime converts, so "Invalid cache lifetime" is never reported. */
  lemma TryHoursAcceptsI32(hours: I32)
    ensures TryHours(hours) == Some(hours * 3600)
  {
  }

  /** The expiry test exactly as the source writes it: `now + lifetime < created`. */
  predicate ExpiredAt(now: int, lifetimeSeconds: int, created: int): (expired: bool)
    ensures expired <==> lifetimeSeconds < created - now
    ensures expired && 0 <= lifetimeSeconds ==> now < created
  {
    now + lifetimeSeconds < created
  }

  /** A file-system tree together with what an operation returned. */
  datatype Step<T> = Step(tree: Tree, result: T)

  /** `format!("{}/{}.json", config.get_path(), file_name)`. */
  function CacheFilePath(config: CacheConfig, fileName: string): (p: string)
    ensures Parent(p).Some?
  {
    var p := Join(config.GetPath(), fileName + ".json");
    assert p[|config.GetPath()|] == '/';
    p
  }

  /** For a plain file name the file lands directly in the configured directory. */
  lemma CacheFilePathSplits(config: CacheConfig, fileName: string)
    requires '/' !in fileName
    ensures Parent(CacheFilePath(config, fileName)) == Some(config.GetPath())
    ensures BaseName(CacheFilePath(config, fileName)) == fileName + ".json"
  {
    JoinSplits(config.GetPath(), fileName + ".json");
  }

  // ---------------------------------------------------------------- create_cache_file

  /** The effect and result of `create_cache_file`. */
  function Create<T>(t: Tree, value: T, kind: CacheConfigs, currency: Option<Currency>, fileName: string,
                     now: int, isEnabled: CacheConfig -> bool,
                     serialize: T -> Result<string, IoError>): Step<Result<(), IoError>>
  {
    var config := kind.GetConfig(currency);
    if !isEnabled(config) then Step(t, Err(NotEnabled))
    else match serialize(value)
      case Err(e) => Step(t, Err(e))
      case Ok(json) => Store(t, CacheFilePath(config, fileName), json, now)
  }

  /** The name `name` in `dir` is taken by a directory. */
  predicate DirectoryNamed(t: Tree, dir: string, name: string) {
    dir in t && IndexOf(t[dir], name).Some? && t[dir][IndexOf(t[dir], name).value].kind == Directory
  }

  /** `create_dir_all(path.parent())` followed by `fs::write(path, json)`. */
  function Store(t: Tree, path: string, json: string, now: int): Step<Result<(), IoError>>
    requires Parent(path).Some?
  {
    var dir := Parent(path).value;
    match DirsCreated(t, dir, now)
    case Err(e) => Step(t, Err(e))
    case Ok(t1) =>
      match FileWritten(t1, dir, BaseName(path), json, now)
      case Err(_) => Step(t1, Err(WriteFailed))
      case Ok(t2) => Step(t2, Ok(()))
  }

  /**
   * Storing `dir/name` fails with "Not a directory" when a file blocks a missing ancestor
   * above `dir`, with "File exists" when a file is named `dir` itself, with "Failed to write
   * cache file" when a directory already has the name `name`, and succeeds
   * otherwise. On success `dir/name` holds `json` (keeping its creation time if it existed),
   * every other file reads as before, every ancestor exists and no directory outside the
   * ancestors changes.
   */
  lemma StoreOutcome(t: Tree, dir: string, name: string, json: string, now: int)
    requires '/' !in name
    ensures Parent(Join(dir, name)) == Some(dir)
    ensures var s := Store(t, Join(dir, name), json, now);
            && (AboveBlocked(t, dir) ==> s == Step(t, Err(NotADirectory)))
            && (!AboveBlocked(t, dir) && Blocked(t, dir) ==> s == Step(t, Err(FileExists)))
            && (!AnyBlocked(t, dir) && DirectoryNamed(t, dir, name) ==>
                  s.result == Err(WriteFailed) && s.tree == MakeDirs(t, Ancestors(dir), now))
            && (s.result.Ok? <==> !AnyBlocked(t, dir) && !DirectoryNamed(t, dir, name))
            && (s.result.Ok? ==>
                  && FileAt(s.tree, dir, name).Some?
                  && FileAt(s.tree, dir, name).value.text == Some(json)
                  && FileAt(s.tree, dir, name).value.created
                     == (if FileAt(t, dir, name).Some? then FileAt(t, dir, name).value.created else Some(now))
                  && (forall d, n :: (d, n) != (dir, name) ==> FileAt(s.tree, d, n) == FileAt(t, d, n))
                  && (forall a :: a in Ancestors(dir) ==> a in s.tree))
            && (forall k :: k !in Ancestors(dir) ==> (k in s.tree <==> k in t) && (k in t ==> s.tree[k] == t[k]))
  {
    JoinSplits(dir, name);
    BlockedSplit(t, dir);
    var path := Join(dir, name);
    if !AnyBlocked(t, dir) {
      var t1 := MakeDirs(t, Ancestors(dir), now);
      CreatedTarget(t, dir, now);
      MakeDirsKeepKeys(t, Ancestors(dir), now);
      forall k | k !in Ancestors(dir) ensures (k in t1 <==> k in t) && (k in t ==> t1[k] == t[k]) {
        CreatedOnlyAncestors(t, dir, now, k);
      }
      if !DirectoryNamed(t, dir, name) {
        WrittenFrame(t1, dir, name, json, now);
        var t2 := FileWritten(t1, dir, name, json, now).value;
        forall d, n ensures FileAt(t1, d, n) == FileAt(t, d, n) {
          MakeDirsKeepFiles(t, Ancestors(dir), now, d, n);
        }
        forall d, n | (d, n) != (dir, name) ensures FileAt(t2, d, n) == FileAt(t, d, n) {
          if d != dir {
            assert (d in t2 <==> d in t1) && (d in t1 ==> t2[d] == t1[d]);
          }
        }
      }
    }
  }

  /** Writing into an empty or missing directory leaves the new file as its only entry. */
  lemma StoreIntoEmptyDir(t: Tree, dir: string, name: string, json: string, now: int)
    requires '/' !in name
    requires dir !in t || t[dir] == []
    requires Parent(Join(dir, name)).Some?
    requires Store(t, Join(dir, name), json, now).result.Ok?
    ensures var t' := Store(t, Join(dir, name), json, now).tree;
            dir in t' && t'[dir] == [Entry(name, File, Some(now), Some(json))]
  {
    JoinSplits(dir, name);
    CreatedTarget(t, dir, now);
  }

  /**
   * Rewriting the only file of a directory whose ancestors all exist succeeds, keeps the file's
   * creation time and changes nothing but its text.
   */
  lemma StoreOverLoneFile(t: Tree, dir: string, name: string, previous: string, created: int, json: string, now: int)
    requires '/' !in name
    requires dir in t && t[dir] == [Entry(name, File, Some(created), Some(previous))]
    requires forall a :: a in Ancestors(dir) ==> a in t
    ensures Parent(Join(dir, name)) == Some(dir)
    ensures var s := Store(t, Join(dir, name), json, now);
            s.result.Ok? && s.tree == t[dir := [Entry(name, File, Some(created), Some(json))]]
  {
    JoinSplits(dir, name);
    BlockedSplit(t, dir);
    assert !AnyBlocked(t, dir);
    MakeDirsExisting(t, Ancestors(dir), now);
    FirstIndex(t[dir]);
    var e := t[dir][0];
    assert t[dir][0 := e.(text := Some(json))] == [Entry(name, File, Some(created), Some(json))];
  }

  method CreateCacheFile<T>(disk: Disk, value: T, kind: CacheConfigs, currency: Option<Currency>,
                            fileName: string, now: int, isEnabled: CacheConfig -> bool,
                            serialize: T -> Result<string, IoError>)
    returns (r: Result<(), IoError>)
    modifies disk
    ensures Step(disk.tree, r) == Create(old(disk.tree), value, kind, currency, fileName, now, isEnabled, serialize)
  {
    var config := kind.GetConfig(currency);
    if !isEnabled(config) {
      return Err(NotEnabled);
    }
    var json := serialize(value);
    if json.Err? {
      return Err(json.error);
    }
    var path := CacheFilePath(config, fileName);
    var parent := Parent(path);
    if parent.Some? {
      var created := disk.CreateDirAll(parent.value, now);
      if created.Err? {
        return Err(created.error);
      }
    }
    var written := disk.Write(parent.value, BaseName(path), json.value, now);
    if written.Err? {
      return Err(WriteFailed);
    }
    r := Ok(());
  }

  /** A disabled cache refuses the write and leaves the file system alone. */
  lemma CreateWhenDisabled<T>(t: Tree, value: T, kind: CacheConfigs, currency: Option<Currency>, fileName: string,
                              now: int, isEnabled: CacheConfig -> bool, serialize: T -> Result<string, IoError>)
    requires !isEnabled(kind.GetConfig(currency))
    ensures Create(t, value, kind, currency, fileName, now, isEnabled, serialize) == Step(t, Err(NotEnabled))
  {
  }

  /**
   * An enabled write with a plain file name stores the serialised value at
   * `get_path()/file_name.json`; a serialisation error comes back unchanged and touches nothing.
   */
  lemma CreateStores<T>(t: Tree, value: T, kind: CacheConfigs, currency: Option<Currency>, fileName: string,
                        now: int, isEnabled: CacheConfig -> bool, serialize: T -> Result<string, IoError>)
    requires isEnabled(kind.GetConfig(currency))
    requires '/' !in fileName
    ensures var dir := kind.GetConfig(currency).GetPath();
            var s := Create(t, value, kind, currency, fileName, now, isEnabled, serialize);
            && (serialize(value).Err? ==> s == Step(t, Err(serialize(value).error)))
            && (serialize(value).Ok? ==> s == Store(t, Join(dir, fileName + ".json"), serialize(value).value, now))
  {
  }

  // ---------------------------------------------------------------- read_and_invalid_cache_file

  /** The effect and result of `read_and_invalid_cache_file`: only the first entry is looked at. */
  function ReadAndInvalidate<T>(t: Tree, kind: CacheConfigs, currency: Option<Currency>, now: int,
                                isEnabled: CacheConfig -> bool,
                                deserialize: string -> Result<T, string>): Step<Outcome<Result<T, IoError>>>
  {
    var config := kind.GetConfig(currency);
    if !isEnabled(config) then Step(t, Returned(Err(NotEnabled)))
    else
      var dir := config.GetPath();
      if dir !in t || t[dir] == [] then Step(t, Returned(Err(NoCacheFile)))
      else
        var entry := t[dir][0];
        if entry.created.None? then Step(t, Returned(Err(CacheExpired)))
        else match TryHours(config.lifetimeInHours)
          case None => Step(t, Returned(Err(InvalidLifetime)))
          case Some(lifetime) =>
            if ExpiredAt(now, lifetime, entry.created.value) then
              match FileRemoved(t, dir, entry.name)
              case Ok(t1) => Step(t1, Returned(Err(CacheExpired)))
              case Err(_) => Step(t, Panicked)
            else if entry.kind != File then Step(t, Returned(Err(NoCacheFile)))
            else match TextOf(t, dir, entry.name)
              case Err(e) => Step(t, Returned(Err(e)))
              case Ok(s) =>
                match deserialize(s)
                case Err(msg) => Step(t, Returned(Err(IoError(Other, msg))))
                case Ok(v) => Step(t, Returned(Ok(v)))
  }

  method ReadAndInvalidCacheFile<T>(disk: Disk, kind: CacheConfigs, currency: Option<Currency>, now: int,
                                    isEnabled: CacheConfig -> bool, deserialize: string -> Result<T, string>)
    returns (o: Outcome<Result<T, IoError>>)
    modifies disk
    ensures Step(disk.tree, o) == ReadAndInvalidate(old(disk.tree), kind, currency, now, isEnabled, deserialize)
  {
    var config := kind.GetConfig(currency);
    if !isEnabled(config) {
      return Returned(Err(NotEnabled));
    }
    var dir := config.GetPath();
    var entries := disk.ReadDir(dir);
    if entries.Err? {
      return Returned(Err(NoCacheFile));
    }
    if entries.value != [] {
      var entry := entries.value[0];
      if entry.created.None? {
        return Returned(Err(CacheExpired));
      }
      var hours := TryHours(config.lifetimeInHours);
      if hours.None? {
        return Returned(Err(InvalidLifetime));
      }
      var cacheTime := now + hours.value;
      if cacheTime < entry.created.value {
        var removed := disk.RemoveFile(dir, entry.name);
        if removed.Err? {
          return Panicked;
        }
        return Returned(Err(CacheExpired));
      }
      if entry.kind == File {
        var contents := disk.ReadToString(dir, entry.name);
        if contents.Err? {
          return Returned(Err(contents.error));
        }
        var deserialized := deserialize(contents.value);
        if deserialized.Err? {
          return Returned(Err(IoError(Other, deserialized.error)));
        }
        return Returned(Ok(deserialized.value));
      }
    }
    o := Returned(Err(NoCacheFile));
  }

  /** The first entry of a listing is found at position 0. */
  lemma FirstIndex(l: seq<Entry>)
    requires l != []
    ensures IndexOf(l, l[0].name) == Some(0)
  {
  }

  /** The first entry of `dir` is a file, its creation time is known and it has not expired. */
  predicate FreshFirstFile(t: Tree, dir: string, now: int, lifetimeHours: I32) {
    && dir in t && t[dir] != []
    && t[dir][0].kind == File
    && t[dir][0].created.Some?
    && !ExpiredAt(now, lifetimeHours * 3600, t[dir][0].created.value)
  }

  /**
   * The read changes the file system exactly when the first entry's creation time is known and
   * `now + lifetime < created`: then that one entry, and nothing else, is removed (or, when it is
   * a directory, `remove_file(..).unwrap()` panics and nothing changes).
   */
  lemma ReadInvalidatesOnlyExpiredFirstEntry<T>(t: Tree, kind: CacheConfigs, currency: Option<Currency>, now: int,
                                                isEnabled: CacheConfig -> bool, deserialize: string -> Result<T, string>)
    ensures var s := ReadAndInvalidate(t, kind, currency, now, isEnabled, deserialize);
            var config := kind.GetConfig(currency);
            var dir := config.GetPath();
            var expired := isEnabled(config) && dir in t && t[dir] != [] && t[dir][0].created.Some?
                           && ExpiredAt(now, config.lifetimeInHours * 3600, t[dir][0].created.value);
            && (expired && t[dir][0].kind == File <==> s.tree != t)
            && (expired && t[dir][0].kind == File ==> s == Step(t[dir := t[dir][1..]], Returned(Err(CacheExpired))))
            && (expired && t[dir][0].kind == Directory ==> s == Step(t, Panicked))
            && (!expired ==> s.result.Returned?)
  {
    var config := kind.GetConfig(currency);
    TryHoursAcceptsI32(config.lifetimeInHours);
    var dir := config.GetPath();
    if isEnabled(config) && dir in t && t[dir] != [] {
      FirstIndex(t[dir]);
      var l := t[dir];
      assert l[..0] + l[1..] == l[1..];
      assert |l[1..]| < |l|;
    }
  }

  /**
   * The read returns a value exactly when the first entry is a fresh file whose text
   * deserialises to it; it then changes nothing.
   */
  lemma ReadHit<T>(t: Tree, kind: CacheConfigs, currency: Option<Currency>, now: int,
                   isEnabled: CacheConfig -> bool, deserialize: string -> Result<T, string>, v: T)
    ensures var s := ReadAndInvalidate(t, kind, currency, now, isEnabled, deserialize);
            var config := kind.GetConfig(currency);
            var dir := config.GetPath();
            s.result == Returned(Ok(v)) <==>
              && isEnabled(config)
              && FreshFirstFile(t, dir, now, config.lifetimeInHours)
              && t[dir][0].text.Some?
              && deserialize(t[dir][0].text.value) == Ok(v)
              && s.tree == t
  {
    var config := kind.GetConfig(currency);
    TryHoursAcceptsI32(config.lifetimeInHours);
    var dir := config.GetPath();
    if isEnabled(config) && dir in t && t[dir] != [] {
      FirstIndex(t[dir]);
    }
  }

  /**
   * Every miss on an unexpired entry is reported with its reason: disabled, no directory or an
   * empty one, an unknown creation time, a first entry that is not a file, unreadable text, or
   * the deserialiser's own message. Expired entries are `ReadInvalidatesOnlyExpiredFirstEntry`'s.
   */
  lemma ReadMisses<T>(t: Tree, kind: CacheConfigs, currency: Option<Currency>, now: int,
                      isEnabled: CacheConfig -> bool, deserialize: string -> Result<T, string>)
    ensures var s := ReadAndInvalidate(t, kind, currency, now, isEnabled, deserialize);
            var config := kind.GetConfig(currency);
            var dir := config.GetPath();
            && (!isEnabled(config) ==> s == Step(t, Returned(Err(NotEnabled))))
            && (isEnabled(config) && (dir !in t || t[dir] == []) ==> s == Step(t, Returned(Err(NoCacheFile))))
            && (isEnabled(config) && dir in t && t[dir] != [] && t[dir][0].created.None? ==>
                  s == Step(t, Returned(Err(CacheExpired))))
            && (isEnabled(config) && dir in t && t[dir] != [] && t[dir][0].created.Some?
                && !ExpiredAt(now, config.lifetimeInHours * 3600, t[dir][0].created.value)
                && t[dir][0].kind == Directory
                ==> s == Step(t, Returned(Err(NoCacheFile))))
            && (isEnabled(config) && FreshFirstFile(t, dir, now, config.lifetimeInHours) && t[dir][0].text.None? ==>
                  s == Step(t, Returned(Err(NotUtf8))))
            && (isEnabled(config) && FreshFirstFile(t, dir, now, config.lifetimeInHours) && t[dir][0].text.Some?
                && deserialize(t[dir][0].text.value).Err? ==>
                  s == Step(t, Returned(Err(IoError(Other, deserialize(t[dir][0].text.value).error)))))
  {
    var config := kind.GetConfig(currency);
    TryHoursAcceptsI32(config.lifetimeInHours);
    var dir := config.GetPath();
    if isEnabled(config) && dir in t && t[dir] != [] {
      FirstIndex(t[dir]);
    }
  }

  /** Under the comparison as written, an entry created at or before `now` never expires. */
  lemma PastEntriesNeverExpire(now: int, lifetimeHours: I32, created: int)
    requires lifetimeHours >= 0 && created <= now
    ensures !ExpiredAt(now, lifetimeHours * 3600, created)
  {
  }

  /** Only the listing of the resolved directory matters to a read. */
  lemma ReadSeesOnlyItsDirectory<T>(t1: Tree, t2: Tree, kind: CacheConfigs, currency: Option<Currency>, now: int,
                                    isEnabled: CacheConfig -> bool, deserialize: string -> Result<T, string>)
    requires var dir := kind.GetConfig(currency).GetPath();
             (dir in t1 <==> dir in t2) && (dir in t1 ==> t1[dir] == t2[dir])
    ensures ReadAndInvalidate(t1, kind, currency, now, isEnabled, deserialize).result
            == ReadAndInvalidate(t2, kind, currency, now, isEnabled, deserialize).result
  {
  }

  /**
   * Round trip: a value written to an empty or missing directory is read back unchanged at any
   * later time, provided the deserialiser inverts the serialiser on it.
   */
  lemma WriteThenRead<T>(t: Tree, value: T, kind: CacheConfigs, currency: Option<Currency>, fileName: string,
                         written: int, now: int, isEnabled: CacheConfig -> bool,
                         serialize: T -> Result<string, IoError>, deserialize: string -> Result<T, string>)
    requires '/' !in fileName
    requires Create(t, value, kind, currency, fileName, written, isEnabled, serialize).result.Ok?
    requires var dir := kind.GetConfig(currency).GetPath(); dir !in t || t[dir] == []
    requires serialize(value).Ok? && deserialize(serialize(value).value) == Ok(value)
    requires written <= now
    ensures var t' := Create(t, value, kind, currency, fileName, written, isEnabled, serialize).tree;
            ReadAndInvalidate(t', kind, currency, now, isEnabled, deserialize) == Step(t', Returned(Ok(value)))
  {
    var dir := kind.GetConfig(currency).GetPath();
    CreateStores(t, value, kind, currency, fileName, written, isEnabled, serialize);
    StoreIntoEmptyDir(t, dir, fileName + ".json", serialize(value).value, written);
    var t' := Create(t, value, kind, currency, fileName, written, isEnabled, serialize).tree;
    ReadLoneFile(t', kind, currency, fileName + ".json", serialize(value).value, written, now, isEnabled, deserialize, value);
  }

  /** A directory holding one fresh file reads back as that file's deserialised text. */
  lemma ReadLoneFile<T>(t: Tree, kind: CacheConfigs, currency: Option<Currency>, name: string, json: string,
                        written: int, now: int, isEnabled: CacheConfig -> bool,
                        deserialize: string -> Result<T, string>, value: T)
    requires isEnabled(kind.GetConfig(currency))
    requires var dir := kind.GetConfig(currency).GetPath();
             dir in t && t[dir] == [Entry(name, File, Some(written), Some(json))]
    requires deserialize(json) == Ok(value) && written <= now
    ensures ReadAndInvalidate(t, kind, currency, now, isEnabled, deserialize) == Step(t, Returned(Ok(value)))
  {
    var config := kind.GetConfig(currency);
    PastEntriesNeverExpire(now, config.lifetimeInHours, written);
    ReadHit(t, kind, currency, now, isEnabled, deserialize, value);
  }

  /** Another currency's directory is never an ancestor of the written one. */
  lemma OtherPartitionIsNoAncestor(kind: CacheConfigs, c1: Currency, c2: Currency)
    requires c1.code != c2.code && '/' !in c1.code
    ensures kind.GetConfig(Some(c2)).GetPath() !in Ancestors(kind.GetConfig(Some(c1)).GetPath())
  {
    var dir1, dir2 := kind.GetConfig(Some(c1)).GetPath(), kind.GetConfig(Some(c2)).GetPath();
    PartitionIsolation(kind, c1, c2);
    AncestorsWithin(dir1);
    if |dir2| < |dir1| {
      assert dir1[|dir2|] == c1.code[|c2.code|] != '/';
    }
  }

  /** A write changes no directory outside the ancestors of its own directory. */
  lemma CreateFrame<T>(t: Tree, value: T, kind: CacheConfigs, currency: Option<Currency>, fileName: string,
                       now: int, isEnabled: CacheConfig -> bool, serialize: T -> Result<string, IoError>, k: string)
    requires '/' !in fileName && k !in Ancestors(kind.GetConfig(currency).GetPath())
    ensures var t' := Create(t, value, kind, currency, fileName, now, isEnabled, serialize).tree;
            (k in t' <==> k in t) && (k in t ==> t'[k] == t[k])
  {
    if isEnabled(kind.GetConfig(currency)) && serialize(value).Ok? {
      CreateStores(t, value, kind, currency, fileName, now, isEnabled, serialize);
      StoreOutcome(t, kind.GetConfig(currency).GetPath(), fileName + ".json", serialize(value).value, now);
    }
  }

  /**
   * Partition isolation: writing the cache file of one currency never changes what a read for
   * another currency of the same kind returns, when both codes are plain path components.
   */
  lemma WriteIsolatesPartitions<T, U>(t: Tree, value: T, kind: CacheConfigs, c1: Currency, c2: Currency,
                                      fileName: string, written: int, now: int, isEnabled: CacheConfig -> bool,
                                      serialize: T -> Result<string, IoError>, deserialize: string -> Result<U, string>)
    requires c1.code != c2.code && PlainComponent(c1.code) && PlainComponent(c2.code) && '/' !in fileName
    ensures var t' := Create(t, value, kind, Some(c1), fileName, written, isEnabled, serialize).tree;
            ReadAndInvalidate(t', kind, Some(c2), now, isEnabled, deserialize).result
            == ReadAndInvalidate(t, kind, Some(c2), now, isEnabled, deserialize).result
  {
    var s := Create(t, value, kind, Some(c1), fileName, written, isEnabled, serialize);
    OtherPartitionIsNoAncestor(kind, c1, c2);
    CreateFrame(t, value, kind, Some(c1), fileName, written, isEnabled, serialize, kind.GetConfig(Some(c2)).GetPath());
    ReadSeesOnlyItsDirectory(s.tree, t, kind, Some(c2), now, isEnabled, deserialize);
  }

  // ---------------------------------------------------------------- rest_cache

  /** The effect and result of `rest_cache`. */
  function Reset(t: Tree): Step<Result<(), IoError>> {
    if CacheDir !in t then Step(t, Err(NoSuchFile)) else Step(TreeRemoved(t, CacheDir), Ok(()))
  }

  method RestCache(disk: Disk) returns (r: Result<(), IoError>)
    modifies disk
    ensures Step(disk.tree, r) == Reset(old(disk.tree))
  {
    var cacheFolder := disk.ReadDir(CacheDir);
    if cacheFolder.Err? {
      return Err(cacheFolder.error);
    }
    r := disk.RemoveDirAll(CacheDir);
  }

  /**
   * After a successful reset no directory at or below the cache root is left and everything
   * else is as it was; when the root cannot be read the error comes back and nothing changes.
   */
  lemma ResetClearsCacheDir(t: Tree)
    ensures var s := Reset(t);
            && (s.result.Ok? <==> CacheDir in t)
            && (s.result.Err? ==> s == Step(t, Err(NoSuchFile)))
            && (forall k :: k in s.tree ==> !Within(k, CacheDir) || s.result.Err?)
            && (forall k :: !Within(k, CacheDir) ==> (k in s.tree <==> k in t) && (k in t ==> s.tree[k] == t[k]))
  {
  }

  /** After a successful reset every read of every kind misses. */
  lemma ReadAfterResetMisses<T>(t: Tree, kind: CacheConfigs, currency: Option<Currency>, now: int,
                                isEnabled: CacheConfig -> bool, deserialize: string -> Result<T, string>)
    requires Reset(t).result.Ok?
    ensures var t' := Reset(t).tree;
            ReadAndInvalidate(t', kind, currency, now, isEnabled, deserialize).result
            in {Returned(Err(NoCacheFile)), Returned(Err(NotEnabled))}
  {
    PathUnderCacheDir(kind, currency);
    assert kind.GetConfig(currency).GetPath() !in Reset(t).tree;
  }
}
