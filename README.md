# currency_converter_cli cache core, in Dafny

This project models the read-through file cache of `currency_converter_cli`, a Rust
command-line currency converter, together with the code around it:

- the cache kinds and their directories (`src/cache/mod.rs`);
- writing a cache file, reading the first file of a cache directory while lazily removing
  it once expired, and deleting the whole cache (`src/cache/file_cache.rs`);
- the API URLs and the cache-first lookup of the supported currencies, with its write-back
  (`src/api/mod.rs`);
- the command history that `save` extends and writes back (`src/currency/history.rs`);
- the rate lookup (`src/currency/mod.rs`);
- the argument validator (`src/validation/mod.rs`).

The file system is a `Disk` object whose one field maps each existing directory path to
its ordered listing. Each listing entry has a name, a kind (file or directory), an optional
creation time and, for a file, optional UTF-8 text. The listing order is the order in
which `read_dir` yields entries, and `read_and_invalid_cache_file` only ever looks at the
first of them.

Each file-cache operation is written twice: a method that changes the `Disk` step by step
as the Rust code does, and a function of the tree (`Create`, `ReadAndInvalidate`, `Reset`,
`SupportedCurrenciesLookup`, `Commands`, `Saved`). Each method is proved to agree with its
function, and the lemmas state the cache's properties about those functions.

Inputs from outside are parameters:

- the clock (`now`, whole seconds);
- the `API_KEY` value;
- `is_cache_enabled` and `get_file_name`, which are called but not defined in the source;
- the serde serialiser and deserialiser;
- the HTTP request and JSON decoding;
- the `f64` parser.

Where the code departs from a conventional cache, the model keeps what the code does:

- **Expiry test.** A cache file counts as expired only when `now + lifetime < created`
  (`src/cache/file_cache.rs:99-101`). This is the comparison the code writes. It is not
  the usual time-to-live rule, under which a file expires once `now` passes
  `created + lifetime`. Under the code's test, a file created at or before `now` never expires
  (`FileCache.PastEntriesNeverExpire`). So with a clock that moves forward, the history
  and the rates are never invalidated; the lemmas about successive saves rely on this.
- **Lifetime of the currency list.** It is 72 hours, as `src/cache/mod.rs:14` sets it.
- **Expired directory entry.** When the expired first entry is a directory,
  `remove_file(..).unwrap()` panics. The read then ends in `Panicked` rather than failing
  softly.
- **`CACHE_DIR` and `CommandHistory`.** `src/cache/mod.rs` defines neither the
  `CommandHistory` cache kind nor `CACHE_DIR`. The model uses `"cache"` for the root, and
  lifetime 1 hour with directory `cache/command_history` for the history kind.

## Model

| member | source | states |
|---|---|---|
| CurrencyCodes.ToUpper | src/api/mod.rs:98 | upper-casing keeps the length, upper-cases every ASCII letter position by position, leaves every other character, and leaves no lower-case letter |
| CurrencyCodes.ToUpperFixesUpper | src/api/mod.rs:98 | a string without lower-case letters is its own upper-casing |
| CurrencyCodes.ToUpperIdempotent | src/api/mod.rs:98 | upper-casing twice is upper-casing once |
| CurrencyCodes.NewFromCode | src/api/mod.rs:96-101 | the stored code is the upper-cased argument, has its length and no lower-case letter; the name is absent |
| CurrencyCodes.NewFromCodeKeepsUpperCode | src/api/mod.rs:96-101 | an upper-case code is stored verbatim |
| CurrencyCodes.NewFromCodeCanonical | src/api/mod.rs:96-105 | rebuilding a currency from its own code gives the same currency |
| CurrencyCodes.NewFromCodeIgnoresCase | src/api/mod.rs:96-101 | codes that agree after upper-casing each character give equal currencies |
| CurrencyCodes.GetCode | src/api/mod.rs:103-105 | the stored code is returned |
| CurrencyCodes.GetName | src/api/mod.rs:107-114 | the name when present, otherwise the code |
| CurrencyCodes.NameOfNewCurrencyIsCode | src/api/mod.rs:96-114 | a currency made from a code displays as the upper-cased code |
| Cache.CacheConfigs.GetConfig | src/cache/mod.rs:11-20 | Currencies is 72 hours in `cache/currencies`, ExchangeRates 1 hour in `cache/exchange_rates`, and the currency is carried over; every directory is under `cache/` |
| Cache.CacheConfig.GetPath | src/cache/mod.rs:41-49 | without a currency the path is the directory; with one it is the directory, `/`, then the code |
| Cache.PartitionIsolation | src/cache/mod.rs:41-49 | for one kind, two currencies give the same path string exactly when their codes are equal |
| Cache.PartitionedPathIsNotDomainPath | src/cache/mod.rs:41-49 | a per-currency path string never equals the kind's shared path string |
| Cache.KindsAreDisjoint | src/cache/mod.rs:11-49 | path strings of different kinds never coincide, whatever the currencies |
| Cache.PathUnderCacheDir | src/cache/mod.rs:11-49 | every resolved path lies under `cache/` |
| FileSystem.JoinSplits | src/cache/file_cache.rs:24-28 | for a name without `/`, the parent of `dir/name` is `dir` and its file name is `name` |
| FileSystem.FileAboveTargetIsNotADirectory | src/cache/file_cache.rs:28-30 | a file `dir/a` where the directory of `dir/a/b` should be makes `create_dir_all(dir/a/b)` fail with "Not a directory" |
| FileSystem.BlockedSplit | src/cache/file_cache.rs:28-30 | a blocked ancestor of `p` is either strictly above `p` or `p` itself, the two cases `create_dir_all` reports differently |
| FileSystem.CreatedTarget | src/cache/file_cache.rs:28-30 | after `create_dir_all(p)`, `p` exists, keeping its listing or new and empty |
| FileSystem.CreatedOnlyAncestors | src/cache/file_cache.rs:28-30 | `create_dir_all(p)` changes no directory other than `p`'s ancestors |
| FileSystem.MakeDirsKeepFiles | src/cache/file_cache.rs:28-30 | creating directories leaves every file as it was |
| FileSystem.WrittenFrame | src/cache/file_cache.rs:32 | a write changes only the target directory's listing, sets the file's text, keeps an existing file's creation time and stamps a new one with `now` |
| FileSystem.TreeRemoved | src/cache/file_cache.rs:129 | `remove_dir_all(root)` removes exactly `root` and the directories below it |
| FileSystem.Disk.ReadDir | src/cache/file_cache.rs:57-64 | the listing of an existing directory, or "not found", with no change |
| FileSystem.Disk.CreateDirAll | src/cache/file_cache.rs:28-30 | the tree becomes `DirsCreated` of the old tree, or stays unchanged with the error |
| FileSystem.Disk.Write | src/cache/file_cache.rs:32 | the tree becomes `FileWritten` of the old tree, or stays unchanged with the error |
| FileSystem.Disk.ReadToString | src/cache/file_cache.rs:110 | the file's text; a missing file, a directory or text that is not UTF-8 give their errors |
| FileSystem.Disk.RemoveFile | src/cache/file_cache.rs:102 | the entry is removed from its listing; a directory or a missing entry give their errors |
| FileSystem.Disk.RemoveDirAll | src/cache/file_cache.rs:129 | the tree becomes `TreeRemoved`, or "not found" when the root is missing |
| FileCache.TryHours | src/cache/file_cache.rs:89-97 | an hour count converts exactly when `3600 * hours` seconds fits chrono's largest duration, and then converts to that many seconds |
| FileCache.ExpiredAt | src/cache/file_cache.rs:99-101 | the comparison as written: an entry is expired exactly when its creation time lies more than the lifetime after `now`, so with a non-negative lifetime only entries stamped in the future expire |
| FileCache.TryHoursAcceptsI32 | src/cache/file_cache.rs:89-97 | every `i32` lifetime converts to `3600 * hours` seconds, so "Invalid cache lifetime" never occurs |
| FileCache.CacheFilePathSplits | src/cache/file_cache.rs:24-28 | for a plain file name the cache file's parent is `get_path()` and its name is `file_name.json` |
| FileCache.CreateCacheFile | src/cache/file_cache.rs:12-42 | the new tree and the result are those of `Create` on the old tree |
| FileCache.CreateWhenDisabled | src/cache/file_cache.rs:17-20 | a disabled cache returns "Cache is not enabled" and touches nothing |
| FileCache.CreateStores | src/cache/file_cache.rs:17-32 | a serialisation error is returned and touches nothing; otherwise the text is stored at `get_path()/file_name.json` |
| FileCache.StoreOutcome | src/cache/file_cache.rs:28-41 | "Not a directory" when a file stands in place of a missing ancestor above the target directory, "File exists" when a file has the target directory's own name; "Failed to write cache file" when a directory has the name; otherwise success, holding the text, with every other file unchanged and nothing outside the ancestors changed |
| FileCache.StoreIntoEmptyDir | src/cache/file_cache.rs:28-32 | writing into an empty or missing directory leaves the new file as its only entry, created at `now` |
| FileCache.StoreOverLoneFile | src/cache/file_cache.rs:28-32 | rewriting a directory's only file succeeds, keeps its creation time and replaces only its text |
| FileCache.ReadAndInvalidCacheFile | src/cache/file_cache.rs:44-122 | the new tree and the outcome are those of `ReadAndInvalidate` on the old tree |
| FileCache.ReadInvalidatesOnlyExpiredFirstEntry | src/cache/file_cache.rs:66-107 | the tree changes if and only if the first entry is an expired file, and then only that entry is removed; an expired directory panics and changes nothing |
| FileCache.ReadHit | src/cache/file_cache.rs:66-115 | a value is returned if and only if the cache is enabled, the first entry is a file that has not expired, and its text deserialises to that value; the tree is then unchanged |
| FileCache.ReadMisses | src/cache/file_cache.rs:50-121 | each miss gives its own error: disabled, no or empty directory, unknown creation time, a first entry that is a directory, text that is not UTF-8, or the deserialiser's message |
| FileCache.PastEntriesNeverExpire | src/cache/file_cache.rs:99-101 | under the comparison as written, an entry created at or before `now` with a non-negative lifetime is never expired |
| FileCache.ReadSeesOnlyItsDirectory | src/cache/file_cache.rs:54-66 | the read's result depends only on the listing of its own directory |
| FileCache.ReadLoneFile | src/cache/file_cache.rs:66-115 | a directory whose one file is fresh reads back as that file's deserialised text |
| FileCache.WriteThenRead | src/cache/file_cache.rs:12-115 | a value written into an empty or missing directory is read back unchanged at any later time, given a codec that round-trips |
| FileCache.CreateFrame | src/cache/file_cache.rs:12-42 | `create_cache_file` changes no directory outside the ancestors of the configured directory |
| FileCache.OtherPartitionIsNoAncestor | src/cache/mod.rs:41-49 | for a code without `/`, another code's directory string is never an ancestor of its directory string |
| FileCache.WriteIsolatesPartitions | src/cache/file_cache.rs:12-66 | when both currency codes are plain path components (not empty, `.` or `..`, and without `/`) and the file name has no `/`, writing one currency's file never changes what a read of another currency of the same kind returns |
| FileCache.RestCache | src/cache/file_cache.rs:124-138 | the new tree and the result are those of `Reset` on the old tree |
| FileCache.ResetClearsCacheDir | src/cache/file_cache.rs:124-138 | the reset succeeds if and only if `cache` exists; nothing at or below it remains and nothing else changes; on failure the error is returned and nothing changes |
| FileCache.ReadAfterResetMisses | src/cache/file_cache.rs:44-138 | after a successful reset, every read of every kind misses |
| Api.ApiEndpoints.PrepareUrl | src/api/mod.rs:22-34 | builds the endpoint's URL from the key; what the URL is made of is stated by `Api.UrlShape` |
| Api.UrlShape | src/api/mod.rs:22-34 | a URL is the API base, then the key, then `/codes` or `/latest/` |
| Api.UrlDeterminesKey | src/api/mod.rs:22-34 | one endpoint's URLs are equal exactly when the keys are equal |
| Api.EndpointsDiffer | src/api/mod.rs:26-33 | the two endpoints never share a URL |
| Api.Network.Get | src/api/mod.rs:52 | the response is the fetch of the URL, and the URL is appended to the request log |
| Api.GetSupportedCurrencies | src/api/mod.rs:41-81 | the new tree, the requests made and the outcome are those of `SupportedCurrenciesLookup` |
| Api.HitMakesNoRequest | src/api/mod.rs:45-47 | on a cache hit the cached list is returned, with no request and no change to the tree |
| Api.MissFetchesOnce | src/api/mod.rs:48-78 | a miss makes exactly one request, to the codes URL; a request or decode error is returned and nothing is written; a decoded response returns its `supported_codes` after writing exactly that list back |
| Api.PanicMakesNoRequest | src/api/mod.rs:45 | a panic in the read ends the lookup before any request, with the tree unchanged |
| Api.ResultIgnoresWriteBack | src/api/mod.rs:61-78 | neither the serialiser nor the file name affects the result or the requests |
| Api.FailureIsNotCached | src/api/mod.rs:52-58 | when the read changed nothing (no expired first entry was removed) and missed, a failed request writes nothing, so the next lookup misses again and requests the URL again |
| Api.FetchedListIsServedFromCache | src/api/mod.rs:45-71 | starting from an empty or missing currencies directory, with a codec that round-trips, after a miss whose write-back succeeds a later lookup returns the fetched list from the cache and makes no request |
| History.New | src/currency/history.rs:18-26 | the record holds the command, the output and the clock's timestamp as given |
| History.GetCommands | src/currency/history.rs:28-36 | the new tree and the outcome are those of `Commands` |
| History.GetHistory | src/currency/history.rs:72-79 | exactly what `get_commands` returns and does |
| History.CommandsMirrorRead | src/currency/history.rs:28-36 | a stored list is returned unchanged, a failed read as its error's text, a panic as a panic; the tree changes only as the read changes it |
| History.Appended | src/currency/history.rs:41-48 | after a successful read the list written keeps the stored prefix, has one more element and ends in the new record; after a failed read it is just the record |
| History.Save | src/currency/history.rs:37-57 | the new tree and the outcome are those of `Saved` |
| History.SaveWritesAppendedList | src/currency/history.rs:37-56 | the record written has the `command` argument as its command and the `output` argument as its output; the appended list is what gets written; the result is `Ok` exactly when the write succeeds, otherwise the write error's text |
| History.StoredHistoryReadsBack | src/currency/history.rs:28-36 | a stored history created no later than `now` is read back as it is, with no change |
| History.FirstSaveStartsHistory | src/currency/history.rs:37-56 | the first save into an empty or missing directory succeeds and stores the one-record list |
| History.SaveAppendsRecord | src/currency/history.rs:37-56 | a save onto a stored history succeeds, appends its record and keeps the file's creation time |
| History.SaveWithAppends | src/currency/history.rs:37-56 | with one fixed file name for every save, `save` appends its record to any stored history created no later than the call |
| History.SavesAccumulate | src/currency/history.rs:41-51 | successive saves by one appending step, all under the same file name, leave the stored list followed by their records in call order |
| History.SavesSucceed | src/currency/history.rs:51-56 | every one of those saves returns `Ok` |
| History.SavesBuildHistory | src/currency/history.rs:28-56 | starting from no history, `n` saves under the same file name all succeed, and the history then reads back as their records in call order |
| Rates.GetRate | src/currency/mod.rs:4-25 | rates are fetched for the upper-cased source code; a fetch error is returned unchanged; the upper-cased target's map entry is returned; a missing one gives "Exchange rate for CODE not found" |
| Rates.GetRateIgnoresCase | src/currency/mod.rs:4-8 | codes that agree after upper-casing give the same result |
| Rates.GetRateOfUpperCodes | src/currency/mod.rs:4-8 | upper-casing the codes beforehand changes nothing |
| Rates.UpperTargetIsLookedUpVerbatim | src/currency/mod.rs:13-21 | for upper-case codes the map is consulted under the target code as given, and a missing entry names it |
| Validation.Validate | src/validation/mod.rs:7-29 | an amount is accepted if and only if it parses as `f64`, else "X is not a valid number"; a currency is accepted if and only if it is one of the ten codes exactly, else "X is not a valid currency" |
| Validation.LowerCaseIsRejected | src/validation/mod.rs:20-25 | `usd` is refused: the comparison is case-sensitive |
| Validation.UnknownCodeIsQuoted | src/validation/mod.rs:20-25 | `E2121UR` is refused with "E2121UR is not a valid currency", the message tests/cli.rs expects |
| Validation.AcceptedCodesAreCanonical | src/validation/mod.rs:8-10 | every accepted code is three upper-case letters that `new_from_code` keeps unchanged |

## Left out

- The network: `reqwest::get` and the JSON decoding of its response are the parameters `fetch` and `decode`. `src/api/currencies.rs` and `src/api/exchange_rate.rs` wrap an `ApiEndpoints::request` that is not part of this model; `get_exchange_rates` is the parameter of `Rates.GetRate`.
- Concurrency: the `thread::spawn` write-back in `get_supported_currencies` is modelled as a sequential write at the same instant, and its result is dropped.
- Environment: the value of `API_KEY` is a parameter. Reading `.env` and `unwrap` on a missing variable are not modelled.
- serde: `to_string_pretty` and `serde_json::from_str` are the parameters `serialize` and `deserialize`. Round trips are assumed only where a lemma states them as a precondition.
- Clock: `Utc::now` and file creation times are integers of seconds. `DateTime` overflow in `now + lifetime` is not modelled. The RFC 2822 timestamp of a history record is a parameter.
- `is_cache_enabled` and `get_file_name` are called by the source but not defined there; they are the parameters `isEnabled` and `fileName`.
- History.SavesAccumulate, History.SavesBuildHistory and History.SaveWithAppends: they assume `get_file_name` gives the same name on every call for the `CommandHistory` kind. A new name per call would leave several files in the history directory, and which one a later save reads would then depend on `read_dir` order.
- FileCache.WriteIsolatesPartitions: paths are compared as strings, with no normalisation of `//`, a trailing `/`, `.` or `..`. Isolation is therefore proved only for codes that are plain path components. `Cache.PartitionIsolation`, `Cache.PartitionedPathIsNotDomainPath` and `Cache.KindsAreDisjoint` likewise speak of path strings, not of the directories the operating system resolves them to.
- Console and stdin: `src/utils/config.rs`, every file under `src/cli/`, `src/error/mod.rs`, `src/main.rs` and `src/lib.rs` only prompt, print or dispatch. `print_warning` on a miss is dropped.
- `src/cli/update_cache.rs` only chains the reset and a fetch. `src/cli/direct_conversion.rs` depends on `f64` arithmetic and calls `validate` with another signature. `parse_cli_arguments` is a stub.
- tests/vaildation.rs targets a `validate` with a different signature; tests/converter.rs is `f64` arithmetic; tests/api.rs needs the live API.
- Floating point: rates are an opaque type parameter, and whether a string parses as `f64` is the parameter `parsesAsF64`.
- `ApiError` and `ErrorType` in `src/api/mod.rs` are declared but never used, and are not modelled.
- `ApiEndpoints::get_url` only returns `prepare_url`; it is folded into `PrepareUrl`.
- The `CommandHistory` getters and the `CacheConfig` fields are datatype fields.
- FileSystem.Disk.CreateDirAll: only the failures caused by a file in the way are modelled: "Not a directory" for a file above the target, "File exists" for a file with the target's name. Permissions, races and other operating-system errors are not modelled.
- FileSystem.FileWritten and FileSystem.MakeDir: a new entry is always placed last in its directory's listing. The order `read_dir` yields is unspecified, so in a directory with several entries the real first entry, and with it what `read_and_invalid_cache_file` returns, may differ; the lemmas that read back a file assume an empty or single-entry directory.
- FileSystem.FileWritten and FileSystem.MakeDir: every new file and directory gets a creation time (`now`), so the model assumes a platform whose `metadata().created()` reports birth times. Where it does not, every read of `read_and_invalid_cache_file` returns "Cache file is expired", the cache never hits and `save` always writes a one-record list; `FileCache.WriteThenRead`, `Api.FetchedListIsServedFromCache`, `History.FirstSaveStartsHistory` and `History.SavesBuildHistory` hold only on platforms that report creation times.
- FileSystem: the working directory's own listing is not modelled. `cache` has no parent in the tree, so a plain file named `cache` cannot be represented; for such a file `read_dir("cache")` in `rest_cache` and `create_dir_all` would fail with "Not a directory".
- FileSystem.Disk.RemoveDirAll: removing the root does not remove its entry from the parent listing, which `cache/` at the top level does not need.
- FileCache.ReadAndInvalidCacheFile: an error from the directory iterator itself (`entry?`) is not modelled. A failing `metadata()` and a missing creation time are one case.
- Symbolic links, permissions and non-UTF-8 file names are not modelled.
- CurrencyCodes.ToUpper: upper-casing covers ASCII only; Unicode case mapping, which can change the length, is not modelled.
- The `_ =>` arm of `validate` cannot be reached: both variants are matched before it.
