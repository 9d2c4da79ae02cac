/** src/cache/mod.rs: the cache kinds, their lifetimes and directories, and path resolution. */
module Cache {
  import opened Wrappers
  import opened CurrencyCodes

  /** A Rust `i32`. */
  type I32 = x: int | -0x8000_0000 <= x <= 0x7fff_ffff

  /** Root of every cache directory (`CACHE_DIR`). */
  const CacheDir: string := "cache"

  datatype CacheConfigs = Currencies | ExchangeRates | CommandHistory {

    /** `CacheConfigs::get_config`: the fixed lifetime and directory of the kind, and the given currency. */
    function GetConfig(currency: Option<Currency>): (c: CacheConfig)
      ensures c.currency == currency
      ensures this == Currencies ==> c.lifetimeInHours == 72 && c.dirName == "cache/currencies"
      ensures this == ExchangeRates ==> c.lifetimeInHours == 1 && c.dirName == "cache/exchange_rates"
      ensures this == CommandHistory ==> c.lifetimeInHours == 1 && c.dirName == "cache/command_history"
      ensures CacheDir + "/" <= c.dirName
    {
      match this
      case Currencies => CacheConfig(72, "cache/currencies", currency)
      case ExchangeRates => CacheConfig(1, "cache/exchange_rates", currency)
      case CommandHistory => CacheConfig(1, "cache/command_history", currency)
    }
  }

  /** `CacheConfig`; the datatype constructor plays `CacheConfig::new`. */
  datatype CacheConfig = CacheConfig(lifetimeInHours: I32, dirName: string, currency: Option<Currency>) {

    /** `CacheConfig::get_path`: the directory, narrowed to `dir/CODE` when a currency is given. */
    function GetPath(): (p: string)
      ensures dirName <= p
      ensures currency.None? <==> p == dirName
      ensures currency.Some? ==>
                (|p| == |dirName| + 1 + |currency.value.code| && p[|dirName|] == '/' && p[|dirName| + 1..] == currency.value.code)
    {
      if currency.None? then dirName else dirName + "/" + GetCode(currency.value)
    }
  }

  /** For one kind, two currencies resolve to the same path exactly when their codes agree. */
  lemma PartitionIsolation(kind: CacheConfigs, a: Currency, b: Currency)
    ensures kind.GetConfig(Some(a)).GetPath() == kind.GetConfig(Some(b)).GetPath() <==> a.code == b.code
  {
    var pa, pb := kind.GetConfig(Some(a)).GetPath(), kind.GetConfig(Some(b)).GetPath();
    var n := |kind.GetConfig(None).dirName| + 1;
    if pa == pb {
      assert a.code == pa[n..] == pb[n..] == b.code;
    }
  }

  /** A domain-wide path never coincides with a partitioned one. */
  lemma PartitionedPathIsNotDomainPath(kind: CacheConfigs, a: Currency)
    ensures kind.GetConfig(Some(a)).GetPath() != kind.GetConfig(None).GetPath()
  {
  }

  /** Paths of different kinds never coincide, whatever the currencies. */
  lemma KindsAreDisjoint(k1: CacheConfigs, k2: CacheConfigs, c1: Option<Currency>, c2: Option<Currency>)
    requires k1 != k2
    ensures k1.GetConfig(c1).GetPath() != k2.GetConfig(c2).GetPath()
  {
    var p1, p2 := k1.GetConfig(c1).GetPath(), k2.GetConfig(c2).GetPath();
    var d1, d2 := k1.GetConfig(c1).dirName, k2.GetConfig(c2).dirName;
    assert p1[..|d1|] == d1 && p2[..|d2|] == d2;
    assert p1[6] == d1[6] && p1[7] == d1[7] && p2[6] == d2[6] && p2[7] == d2[7];
    assert d1[6] != d2[6] || d1[7] != d2[7];
  }

  /** Every resolved path lies strictly below the cache root. */
  lemma PathUnderCacheDir(kind: CacheConfigs, c: Option<Currency>)
    ensures CacheDir + "/" <= kind.GetConfig(c).GetPath()
  {
    var d := kind.GetConfig(c).dirName;
    var p := kind.GetConfig(c).GetPath();
    assert p[..|CacheDir + "/"|] == d[..|CacheDir + "/"|];
  }
}
