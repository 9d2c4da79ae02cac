/**
 * src/validation/mod.rs: checking a command-line argument as an amount or as one of ten
 * supported currency codes. Whether a string parses as an `f64` is the parameter
 * `parsesAsF64`.
 */
module Validation {
  import opened Wrappers
  import CurrencyCodes

  datatype ValidationType = Amount | Currency

  /** The codes accepted as currencies, exactly as written (upper case, no spaces). */
  const ValidCurrencies: seq<string> := ["USD", "EUR", "JPY", "GBP", "AUD", "CAD", "CHF", "CNY", "SEK", "NZD"]

  /** `validate`. */
  function Validate(input: string, validationType: ValidationType, parsesAsF64: string -> bool): (r: Result<(), string>)
    ensures validationType == Amount ==> (r.Ok? <==> parsesAsF64(input))
    ensures validationType == Amount && r.Err? ==> r.error == input + " is not a valid number"
    ensures validationType == Currency ==> (r.Ok? <==> exists i :: 0 <= i < |ValidCurrencies| && ValidCurrencies[i] == input)
    ensures validationType == Currency && r.Err? ==> r.error == input + " is not a valid currency"
  {
    match validationType
    case Amount => if parsesAsF64(input) then Ok(()) else Err(input + " is not a valid number")
    case Currency => if input in ValidCurrencies then Ok(()) else Err(input + " is not a valid currency")
  }

  /** The comparison is exact: the lower-case spelling of a listed code is refused. */
  lemma LowerCaseIsRejected(parsesAsF64: string -> bool)
    ensures Validate("usd", Currency, parsesAsF64) == Err("usd is not a valid currency")
  {
    assert "usd" !in ValidCurrencies by {
      forall i | 0 <= i < |ValidCurrencies| ensures ValidCurrencies[i] != "usd" {
        assert ValidCurrencies[i][0] != 'u';
      }
    }
    assert "usd" + " is not a valid currency" == "usd is not a valid currency";
  }

  /** The refusal quotes the argument verbatim, as in tests/cli.rs. */
  lemma UnknownCodeIsQuoted(parsesAsF64: string -> bool)
    ensures Validate("E2121UR", Currency, parsesAsF64) == Err("E2121UR is not a valid currency")
  {
    assert "E2121UR" !in ValidCurrencies by {
      forall i | 0 <= i < |ValidCurrencies| ensures ValidCurrencies[i] != "E2121UR" {
        assert |ValidCurrencies[i]| == 3;
      }
    }
    assert "E2121UR" + " is not a valid currency" == "E2121UR is not a valid currency";
  }

  /**
   * Every accepted currency is a three-letter upper-case code that `Currency::new_from_code`
   * keeps unchanged.
   */
  lemma AcceptedCodesAreCanonical(input: string, parsesAsF64: string -> bool)
    requires Validate(input, Currency, parsesAsF64).Ok?
    ensures |input| == 3 && CurrencyCodes.IsUpper(input)
    ensures CurrencyCodes.NewFromCode(input).code == input
  {
    assert forall c :: c in ValidCurrencies ==> |c| == 3 && CurrencyCodes.IsUpper(c);
    CurrencyCodes.NewFromCodeKeepsUpperCode(input);
  }
}
