/**
 * src/api/mod.rs: the exchange-rate API's URLs and the read-through lookup of the supported
 * currency list (cache first, then one request, then a write-back whose outcome is ignored).
 *
 * The HTTP request and the JSON decoding of its body are parameters (`fetch`, `decode`); the
 * `Network` object only records which URLs were requested, in order.
 */
module Api {
  import opened Wrappers
  import opened CurrencyCodes
  import opened Cache
  import opened FileSystem
  import opened FileCache

  const ApiBase: string := "https://v6.exchangerate-api.com/v6/"

  datatype ApiEndpoints = SupportedCurrencies | ExchangeRate
  {
    /** The endpoint's URL for the given API key. */
    function PrepareUrl(apiKey: string): string {
      match this
      case SupportedCurrencies => ApiBase + apiKey + "/codes"
      case ExchangeRate => ApiBase + apiKey + "/latest/"
    }
  }

  /** Every URL is the API base, then the key, then the endpoint's own suffix. */
  lemma UrlShape(endpoint: ApiEndpoints, apiKey: string)
    ensures var u := endpoint.PrepareUrl(apiKey);
            && ApiBase + apiKey <= u
            && (endpoint == SupportedCurrencies ==> u[|ApiBase| + |apiKey|..] == "/codes")
            && (endpoint == ExchangeRate ==> u[|ApiBase| + |apiKey|..] == "/latest/")
  {
    var u := endpoint.PrepareUrl(apiKey);
    assert u == (ApiBase + apiKey) + u[|ApiBase| + |apiKey|..];
  }

  /** One endpoint's URL determines the key it was built from. */
  lemma UrlDeterminesKey(endpoint: ApiEndpoints, k1: string, k2: string)
    ensures endpoint.PrepareUrl(k1) == endpoint.PrepareUrl(k2) <==> k1 == k2
  {
    if endpoint.PrepareUrl(k1) == endpoint.PrepareUrl(k2) {
      var suffix := if endpoint == SupportedCurrencies then "/codes" else "/latest/";
      var u := endpoint.PrepareUrl(k1);
      assert |k1| == |k2|;
      assert u[|ApiBase|..|ApiBase| + |k1|] == k1;
      assert u[|ApiBase|..|ApiBase| + |k2|] == k2;
    }
  }

  /** The two endpoints never share a URL, whatever the keys. */
  lemma EndpointsDiffer(k1: string, k2: string)
    ensures SupportedCurrencies.PrepareUrl(k1) != ExchangeRate.PrepareUrl(k2)
  {
    var u1, u2 := SupportedCurrencies.PrepareUrl(k1), ExchangeRate.PrepareUrl(k2);
    assert u1[|u1| - 1] == 's';
    assert u2[|u2| - 1] == '/';
  }

  /** The body of the supported-codes response. */
  datatype ApiResponse = ApiResponse(result: string, documentation: string, termsOfUse: string,
                                     supportedCodes: seq<Currency>)

  /** A failed request or a body that does not decode (`reqwest::Error`). */
  datatype RequestError = RequestError(message: string)

  /** The network, reduced to the log of the URLs requested from it. */
  class Network {
    var requests: seq<string>

    constructor()
      ensures requests == []
    {
      requests := [];
    }

    /** `reqwest::get(url)`: the answer comes from `fetch`; the URL is logged. */
    method Get(url: string, fetch: string -> Result<string, RequestError>) returns (r: Result<string, RequestError>)
      modifies this
      ensures requests == old(requests) + [url]
      ensures r == fetch(url)
    {
      requests := requests + [url];
      r := fetch(url);
    }
  }

  /** A file-system tree, the URLs requested and what the lookup returned. */
  datatype Lookup = Lookup(tree: Tree, requests: seq<string>, result: Outcome<Result<seq<Currency>, RequestError>>)

  /** The effect and result of `get_supported_currencies`. */
  function SupportedCurrenciesLookup(t: Tree, apiKey: string, now: int, fileName: string,
                                     isEnabled: CacheConfig -> bool,
                                     serialize: seq<Currency> -> Result<string, IoError>,
                                     deserialize: string -> Result<seq<Currency>, string>,
                                     fetch: string -> Result<string, RequestError>,
                                     decode: string -> Result<ApiResponse, RequestError>): Lookup
  {
    var url := SupportedCurrencies.PrepareUrl(apiKey);
    var cached := ReadAndInvalidate(t, Currencies, None, now, isEnabled, deserialize);
    match cached.result
    case Panicked => Lookup(cached.tree, [], Panicked)
    case Returned(Ok(codes)) => Lookup(cached.tree, [], Returned(Ok(codes)))
    case Returned(Err(_)) =>
      match fetch(url)
      case Err(e) => Lookup(cached.tree, [url], Returned(Err(e)))
      case Ok(body) =>
        match decode(body)
        case Err(e) => Lookup(cached.tree, [url], Returned(Err(e)))
        case Ok(response) =>
          var written := Create(cached.tree, response.supportedCodes, Currencies, None, fileName, now, isEnabled, serialize);
          Lookup(written.tree, [url], Returned(Ok(response.supportedCodes)))
  }

  method GetSupportedCurrencies(disk: Disk, net: Network, apiKey: string, now: int, fileName: string,
                                isEnabled: CacheConfig -> bool,
                                serialize: seq<Currency> -> Result<string, IoError>,
                                deserialize: string -> Result<seq<Currency>, string>,
                                fetch: string -> Result<string, RequestError>,
                                decode: string -> Result<ApiResponse, RequestError>)
    returns (o: Outcome<Result<seq<Currency>, RequestError>>)
    modifies disk, net
    ensures var l := SupportedCurrenciesLookup(old(disk.tree), apiKey, now, fileName, isEnabled, serialize,
                                               deserialize, fetch, decode);
            disk.tree == l.tree && net.requests == old(net.requests) + l.requests && o == l.result
  {
    var url := SupportedCurrencies.PrepareUrl(apiKey);
    var cached := ReadAndInvalidCacheFile(disk, Currencies, None, now, isEnabled, deserialize);
    if cached.Panicked? {
      return Panicked;
    }
    if cached.value.Ok? {
      return Returned(Ok(cached.value.value));
    }
    var response := net.Get(url, fetch);
    if response.Err? {
      return Returned(Err(response.error));
    }
    var decoded := decode(response.value);
    if decoded.Err? {
      return Returned(Err(decoded.error));
    }
    // the write-back thread: its result is dropped
    var _ := CreateCacheFile(disk, decoded.value.supportedCodes, Currencies, None, fileName, now, isEnabled, serialize);
    o := Returned(Ok(decoded.value.supportedCodes));
  }

  /** A cache hit is returned as it is: no request is made and nothing is written. */
  lemma HitMakesNoRequest(t: Tree, apiKey: string, now: int, fileName: string, isEnabled: CacheConfig -> bool,
                          serialize: seq<Currency> -> Result<string, IoError>,
                          deserialize: string -> Result<seq<Currency>, string>,
                          fetch: string -> Result<string, RequestError>,
                          decode: string -> Result<ApiResponse, RequestError>, codes: seq<Currency>)
    requires ReadAndInvalidate(t, Currencies, None, now, isEnabled, deserialize).result == Returned(Ok(codes))
    ensures SupportedCurrenciesLookup(t, apiKey, now, fileName, isEnabled, serialize, deserialize, fetch, decode)
            == Lookup(t, [], Returned(Ok(codes)))
  {
    ReadHit(t, Currencies, None, now, isEnabled, deserialize, codes);
  }

  /**
   * On a miss exactly one request is made, to the supported-codes URL. A failed request or
   * decode is returned and nothing is written beyond what the read itself removed; a decoded
   * response is returned as its `supported_codes`, after a write-back of exactly that list.
   */
  lemma MissFetchesOnce(t: Tree, apiKey: string, now: int, fileName: string, isEnabled: CacheConfig -> bool,
                        serialize: seq<Currency> -> Result<string, IoError>,
                        deserialize: string -> Result<seq<Currency>, string>,
                        fetch: string -> Result<string, RequestError>,
                        decode: string -> Result<ApiResponse, RequestError>)
    requires ReadAndInvalidate(t, Currencies, None, now, isEnabled, deserialize).result.Returned?
    requires ReadAndInvalidate(t, Currencies, None, now, isEnabled, deserialize).result.value.Err?
    ensures var l := SupportedCurrenciesLookup(t, apiKey, now, fileName, isEnabled, serialize, deserialize, fetch, decode);
            var url := SupportedCurrencies.PrepareUrl(apiKey);
            var readTree := ReadAndInvalidate(t, Currencies, None, now, isEnabled, deserialize).tree;
            && l.requests == [url]
            && ApiBase + apiKey + "/codes" == url
            && (fetch(url).Err? ==> l.result == Returned(Err(fetch(url).error)) && l.tree == readTree)
            && (fetch(url).Ok? && decode(fetch(url).value).Err? ==>
                  l.result == Returned(Err(decode(fetch(url).value).error)) && l.tree == readTree)
            && (fetch(url).Ok? && decode(fetch(url).value).Ok? ==>
                  var codes := decode(fetch(url).value).value.supportedCodes;
                  l.result == Returned(Ok(codes))
                  && l.tree == Create(readTree, codes, Currencies, None, fileName, now, isEnabled, serialize).tree)
  {
  }

  /** A panic while invalidating the cache ends the lookup before any request. */
  lemma PanicMakesNoRequest(t: Tree, apiKey: string, now: int, fileName: string, isEnabled: CacheConfig -> bool,
                            serialize: seq<Currency> -> Result<string, IoError>,
                            deserialize: string -> Result<seq<Currency>, string>,
                            fetch: string -> Result<string, RequestError>,
                            decode: string -> Result<ApiResponse, RequestError>)
    requires ReadAndInvalidate(t, Currencies, None, now, isEnabled, deserialize).result.Panicked?
    ensures var l := SupportedCurrenciesLookup(t, apiKey, now, fileName, isEnabled, serialize, deserialize, fetch, decode);
            l.result.Panicked? && l.requests == [] && l.tree == t
  {
    ReadInvalidatesOnlyExpiredFirstEntry(t, Currencies, None, now, isEnabled, deserialize);
  }

  /**
   * The write-back never alters what the lookup returns or which requests it makes: neither
   * the serialiser nor the file name has any say in them.
   */
  lemma ResultIgnoresWriteBack(t: Tree, apiKey: string, now: int, f1: string, f2: string,
                               isEnabled: CacheConfig -> bool,
                               s1: seq<Currency> -> Result<string, IoError>,
                               s2: seq<Currency> -> Result<string, IoError>,
                               deserialize: string -> Result<seq<Currency>, string>,
                               fetch: string -> Result<string, RequestError>,
                               decode: string -> Result<ApiResponse, RequestError>)
    ensures var l1 := SupportedCurrenciesLookup(t, apiKey, now, f1, isEnabled, s1, deserialize, fetch, decode);
            var l2 := SupportedCurrenciesLookup(t, apiKey, now, f2, isEnabled, s2, deserialize, fetch, decode);
            l1.result == l2.result && l1.requests == l2.requests
  {
  }

  /**
   * A failed fetch caches nothing: when the read left the directory as it was, the next lookup
   * misses again and requests the URL again.
   */
  lemma FailureIsNotCached(t: Tree, apiKey: string, now: int, fileName: string, isEnabled: CacheConfig -> bool,
                           serialize: seq<Currency> -> Result<string, IoError>,
                           deserialize: string -> Result<seq<Currency>, string>,
                           fetch: string -> Result<string, RequestError>,
                           decode: string -> Result<ApiResponse, RequestError>)
    requires var cached := ReadAndInvalidate(t, Currencies, None, now, isEnabled, deserialize);
             cached.tree == t && cached.result.Returned? && cached.result.value.Err?
    requires fetch(SupportedCurrencies.PrepareUrl(apiKey)).Err?
    ensures var l := SupportedCurrenciesLookup(t, apiKey, now, fileName, isEnabled, serialize, deserialize, fetch, decode);
            var again := SupportedCurrenciesLookup(l.tree, apiKey, now, fileName, isEnabled, serialize, deserialize, fetch, decode);
            && l.result == Returned(Err(fetch(SupportedCurrencies.PrepareUrl(apiKey)).error))
            && l.tree == t && again == l && again.requests == [SupportedCurrencies.PrepareUrl(apiKey)]
  {
  }

  /**
   * Read-through: when the currencies directory starts empty or missing and the write-back
   * succeeds with a codec that round-trips, a later lookup is served from the cache with the
   * fetched list and makes no request.
   */
  lemma FetchedListIsServedFromCache(t: Tree, apiKey: string, now: int, later: int, fileName: string,
                                     isEnabled: CacheConfig -> bool,
                                     serialize: seq<Currency> -> Result<string, IoError>,
                                     deserialize: string -> Result<seq<Currency>, string>,
                                     fetch: string -> Result<string, RequestError>,
                                     decode: string -> Result<ApiResponse, RequestError>)
    requires '/' !in fileName && now <= later
    requires var dir := Currencies.GetConfig(None).GetPath(); dir !in t || t[dir] == []
    requires var url := SupportedCurrencies.PrepareUrl(apiKey);
             fetch(url).Ok? && decode(fetch(url).value).Ok?
    requires var codes := decode(fetch(SupportedCurrencies.PrepareUrl(apiKey)).value).value.supportedCodes;
             && Create(t, codes, Currencies, None, fileName, now, isEnabled, serialize).result.Ok?
             && serialize(codes).Ok? && deserialize(serialize(codes).value) == Ok(codes)
    ensures var l := SupportedCurrenciesLookup(t, apiKey, now, fileName, isEnabled, serialize, deserialize, fetch, decode);
            var again := SupportedCurrenciesLookup(l.tree, apiKey, later, fileName, isEnabled, serialize, deserialize, fetch, decode);
            && l.result.Returned? && l.result.value.Ok?
            && again == Lookup(l.tree, [], l.result)
  {
    var url := SupportedCurrencies.PrepareUrl(apiKey);
    var codes := decode(fetch(url).value).value.supportedCodes;
    assert isEnabled(Currencies.GetConfig(None)) by {
      if !isEnabled(Currencies.GetConfig(None)) {
        CreateWhenDisabled(t, codes, Currencies, None, fileName, now, isEnabled, serialize);
      }
    }
    ReadMisses(t, Currencies, None, now, isEnabled, deserialize);
    WriteThenRead(t, codes, Currencies, None, fileName, now, later, isEnabled, serialize, deserialize);
  }
}
