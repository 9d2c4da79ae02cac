/**
 * src/currency/mod.rs: the rate from one currency to another, looked up in the rate map the
 * API returns for the source currency. Rates are `f64` in the source; here they are an opaque
 * type `R`, and the API call is the parameter `getExchangeRates`.
 */
module Rates {
  import opened Wrappers
  import opened CurrencyCodes

  /** The message reported when the rate map has no entry for the target code. */
  function NotFound(code: string): string {
    "Exchange rate for " + code + " not found"
  }

  /** `get_rate`: both codes are upper-cased, the source's rates are fetched and the target looked up. */
  function GetRate<R>(source: string, target: string,
                      getExchangeRates: Currency -> Result<map<string, R>, string>): (r: Result<R, string>)
    ensures var rates := getExchangeRates(Currency(ToUpper(source), None));
            && (rates.Err? ==> r == Err(rates.error))
            && (rates.Ok? && ToUpper(target) in rates.value ==> r == Ok(rates.value[ToUpper(target)]))
            && (rates.Ok? && ToUpper(target) !in rates.value ==> r == Err(NotFound(ToUpper(target))))
  {
    var sourceCurrency := NewFromCode(source);
    var targetCurrency := NewFromCode(target);
    match getExchangeRates(sourceCurrency)
    case Err(e) => Err(e)
    case Ok(rates) =>
      var key := GetCode(targetCurrency);
      if key in rates then Ok(rates[key]) else Err(NotFound(GetCode(targetCurrency)))
  }

  /**
   * Rates are asked for by an upper-case code; codes that differ only in the case of ASCII
   * letters give the same answer.
   */
  lemma GetRateIgnoresCase<R>(s1: string, t1: string, s2: string, t2: string,
                              getExchangeRates: Currency -> Result<map<string, R>, string>)
    requires ToUpper(s1) == ToUpper(s2) && ToUpper(t1) == ToUpper(t2)
    ensures GetRate(s1, t1, getExchangeRates) == GetRate(s2, t2, getExchangeRates)
  {
  }

  /** Upper-casing the codes first changes nothing. */
  lemma GetRateOfUpperCodes<R>(source: string, target: string,
                               getExchangeRates: Currency -> Result<map<string, R>, string>)
    ensures GetRate(ToUpper(source), ToUpper(target), getExchangeRates) == GetRate(source, target, getExchangeRates)
  {
    ToUpperIdempotent(source);
    ToUpperIdempotent(target);
  }

  /**
   * With already upper-case codes the map is consulted under the target code exactly as
   * given, and a missing entry names that code.
   */
  lemma UpperTargetIsLookedUpVerbatim<R>(source: string, target: string,
                                         getExchangeRates: Currency -> Result<map<string, R>, string>)
    requires IsUpper(source) && IsUpper(target)
    ensures var rates := getExchangeRates(Currency(source, None));
            var r := GetRate(source, target, getExchangeRates);
            && (rates.Ok? && target in rates.value ==> r == Ok(rates.value[target]))
            && (rates.Ok? && target !in rates.value ==> r == Err("Exchange rate for " + target + " not found"))
  {
    ToUpperFixesUpper(source);
    ToUpperFixesUpper(target);
  }
}
