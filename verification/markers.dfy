/**
 * The structural lines of an exchange rate file. The live revision calls the
 * enumeration LineMarker, the earlier one ExchangeRateFileMarker; both
 * declare the same nine constants with the same literals, so one datatype
 * stands for both, and the one place they differ, `toString`, is modelled
 * for each.
 */
module Markers {

  datatype Marker =
    | StartOfFile
    | StartOfFieldList
    | EndOfFieldList
    | StartOfExchangeRates
    | EndOfExchangeRates
    | EndOfFile
    | Currency
    | ExchangeRate
    | LastUpdate

  /** `asString()`: the literal the marker has in the file. */
  function AsString(m: Marker): (s: string)
    ensures |s| > 0
    ensures '|' !in s && '\r' !in s
  {
    match m
    case StartOfFile => "START-OF-FILE"
    case StartOfFieldList => "START-OF-FIELD-LIST"
    case EndOfFieldList => "END-OF-FIELD-LIST"
    case StartOfExchangeRates => "START-OF-EXCHANGE-RATES"
    case EndOfExchangeRates => "END-OF-EXCHANGE-RATES"
    case EndOfFile => "END-OF-FILE"
    case Currency => "CURRENCY"
    case ExchangeRate => "EXCHANGE_RATE"
    case LastUpdate => "LAST_UPDATE"
  }

  /** The name the constant is declared under, which `Enum.name()` returns. */
  function ConstantName(m: Marker): string
  {
    match m
    case StartOfFile => "START_OF_FILE"
    case StartOfFieldList => "START_OF_FIELD_LIST"
    case EndOfFieldList => "END_OF_FIELD_LIST"
    case StartOfExchangeRates => "START_OF_EXCHANGE_RATES"
    case EndOfExchangeRates => "END_OF_EXCHANGE_RATES"
    case EndOfFile => "END_OF_FILE"
    case Currency => "CURRENCY"
    case ExchangeRate => "EXCHANGE_RATE"
    case LastUpdate => "LAST_UPDATE"
  }

  /** LineMarker overrides `toString` to return the literal. */
  function LineMarkerToString(m: Marker): string
  {
    AsString(m)
  }

  /** ExchangeRateFileMarker does not override `toString`, so it falls back to the constant's name. */
  function FileMarkerToString(m: Marker): string
  {
    ConstantName(m)
  }

  /** No two markers share a literal, so matching a line against a literal identifies the marker. */
  lemma AsStringInjective(m1: Marker, m2: Marker)
    ensures AsString(m1) == AsString(m2) <==> m1 == m2
  {
  }

  /** An error message built from a LineMarker shows the literal the file should have held. */
  lemma LineMarkerToStringIsLiteral(m: Marker)
    ensures LineMarkerToString(m) == AsString(m)
  {
  }

  /**
   * For ExchangeRateFileMarker, `toString` and `asString` agree exactly on
   * the three field names; every hyphenated marker prints under its
   * underscored constant name instead.
   */
  lemma FileMarkerToStringDiffers(m: Marker)
    ensures FileMarkerToString(m) == AsString(m) <==> m in {Currency, ExchangeRate, LastUpdate}
  {
    match m
    case StartOfFile => assert FileMarkerToString(m)[5] != AsString(m)[5];
    case StartOfFieldList => assert FileMarkerToString(m)[5] != AsString(m)[5];
    case EndOfFieldList => assert FileMarkerToString(m)[3] != AsString(m)[3];
    case StartOfExchangeRates => assert FileMarkerToString(m)[5] != AsString(m)[5];
    case EndOfExchangeRates => assert FileMarkerToString(m)[3] != AsString(m)[3];
    case EndOfFile => assert FileMarkerToString(m)[3] != AsString(m)[3];
    case Currency =>
    case ExchangeRate =>
    case LastUpdate =>
  }
}
