/** The `Currency` value of src/api/mod.rs: an ISO-style code and an optional display name. */
module CurrencyCodes {
  import opened Wrappers

  datatype Currency = Currency(code: string, name: Option<string>)

  predicate IsAsciiLower(c: char) {
    'a' <= c <= 'z'
  }

  /** ASCII model of `char::to_uppercase`: only 'a'..'z' change. */
  function UpperChar(c: char): (u: char)
    ensures !IsAsciiLower(u)
    ensures IsAsciiLower(c) ==> 'A' <= u <= 'Z' && u as int + 32 == c as int
    ensures !IsAsciiLower(c) ==> u == c
  {
    if IsAsciiLower(c) then (c as int - 32) as char else c
  }

  /** ASCII model of `str::to_uppercase`. */
  function ToUpper(s: string): (r: string)
    ensures |r| == |s|
    ensures forall i :: 0 <= i < |s| ==> r[i] == UpperChar(s[i])
    ensures forall i :: 0 <= i < |r| ==> !IsAsciiLower(r[i])
  {
    if s == [] then [] else [UpperChar(s[0])] + ToUpper(s[1..])
  }

  /** A string in which no character changes under upper-casing. */
  predicate IsUpper(s: string) {
    forall i :: 0 <= i < |s| ==> !IsAsciiLower(s[i])
  }

  lemma ToUpperFixesUpper(s: string)
    requires IsUpper(s)
    ensures ToUpper(s) == s
  {
    assert forall i :: 0 <= i < |s| ==> ToUpper(s)[i] == s[i];
  }

  lemma ToUpperIdempotent(s: string)
    ensures ToUpper(ToUpper(s)) == ToUpper(s)
  {
    ToUpperFixesUpper(ToUpper(s));
  }

  /** `Currency::new_from_code`: the code is stored upper-cased, with no name. */
  function NewFromCode(code: string): (c: Currency)
    ensures c.code == ToUpper(code) && c.name == None
    ensures IsUpper(c.code) && |c.code| == |code|
  {
    Currency(ToUpper(code), None)
  }

  /** Building a currency from an already upper-case code keeps the code verbatim. */
  lemma NewFromCodeKeepsUpperCode(code: string)
    requires IsUpper(code)
    ensures NewFromCode(code).code == code
  {
    ToUpperFixesUpper(code);
  }

  /** Re-building a currency from its own code gives the same currency back. */
  lemma NewFromCodeCanonical(code: string)
    ensures NewFromCode(GetCode(NewFromCode(code))) == NewFromCode(code)
  {
    ToUpperIdempotent(code);
  }

  /** Codes that differ only in the case of ASCII letters name the same currency. */
  lemma NewFromCodeIgnoresCase(a: string, b: string)
    requires |a| == |b|
    requires forall i :: 0 <= i < |a| ==> UpperChar(a[i]) == UpperChar(b[i])
    ensures NewFromCode(a) == NewFromCode(b)
  {
    assert ToUpper(a) == ToUpper(b);
  }

  function GetCode(c: Currency): (r: string)
    ensures r == c.code
  {
    c.code
  }

  /** `Currency::get_name`: the name when there is one, the code otherwise. */
  function GetName(c: Currency): (r: string)
    ensures c.name.Some? ==> r == c.name.value
    ensures c.name.None? ==> r == c.code
  {
    if c.name.None? then c.code else c.name.value
  }

  /** A currency made from a code alone shows its upper-cased code as its name. */
  lemma NameOfNewCurrencyIsCode(code: string)
    ensures GetName(NewFromCode(code)) == ToUpper(code)
  {
  }
}
