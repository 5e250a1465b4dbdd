/**
 * The value types: a currency code, a local date-time, one rate
 * observation (ExchangeRateChange) and a flagged pair of observations
 * (FlaggedChange). The two revisions' CurrencyCode and Currency classes
 * behave identically and share the `Code` datatype; so do the two
 * ExchangeRateChange classes, which differ only in the constructors offered.
 */
module Model {

  /** A currency code; equality and hashing go by the wrapped string. */
  datatype Code = Code(val: string)

  /** `valueOf`: wraps any string at all. No ISO 4217 check is made. */
  function ValueOf(s: string): (c: Code)
    ensures c.val == s
  {
    Code(s)
  }

  /** `toString` of a code is the wrapped string. */
  function CodeToString(c: Code): string
  {
    c.val
  }

  /** Two codes are equal exactly when they wrap the same string. */
  lemma ValueOfInjective(s: string, t: string)
    ensures ValueOf(s) == ValueOf(t) <==> s == t
    ensures CodeToString(ValueOf(s)) == s
  {
  }

  type Month = m: int | 1 <= m <= 12 witness 1
  type DayOfMonth = d: int | 1 <= d <= 31 witness 1
  type Hour = h: int | 0 <= h < 24
  type Minute = m: int | 0 <= m < 60
  type Second = s: int | 0 <= s < 60
  type Nano = n: int | 0 <= n < 1_000_000_000

  /** A java.time.LocalDateTime: no time zone, every field within its calendar range. */
  datatype DateTime = DateTime(
    year: int, month: Month, day: DayOfMonth,
    hour: Hour, minute: Minute, second: Second, nano: Nano)

  /** `a.isBefore(b)`: on in-range fields, time order is the lexicographic order of the fields. */
  predicate Before(a: DateTime, b: DateTime)
  {
    if a.year != b.year then a.year < b.year
    else if a.month != b.month then a.month < b.month
    else if a.day != b.day then a.day < b.day
    else if a.hour != b.hour then a.hour < b.hour
    else if a.minute != b.minute then a.minute < b.minute
    else if a.second != b.second then a.second < b.second
    else a.nano < b.nano
  }

  lemma BeforeIrreflexive(a: DateTime)
    ensures !Before(a, a)
  {
  }

  lemma BeforeTransitive(a: DateTime, b: DateTime, c: DateTime)
    requires Before(a, b) && Before(b, c)
    ensures Before(a, c)
  {
  }

  /** Two distinct date-times are always ordered one way or the other, never both. */
  lemma BeforeTotal(a: DateTime, b: DateTime)
    ensures a != b <==> Before(a, b) || Before(b, a)
    ensures !(Before(a, b) && Before(b, a))
  {
  }

  /** A java.time.LocalDate, the type of the header DATE. */
  datatype Date = Date(year: int, month: Month, day: DayOfMonth)

  /** One reported rate: units of `code` per US dollar at `time`. */
  datatype Obs = Obs(code: Code, time: DateTime, rate: real)

  /**
   * The String constructor of ExchangeRateChange: the currency is wrapped
   * with `valueOf` and the other arguments stored as given, unvalidated.
   */
  function NewObs(currency: string, time: DateTime, rate: real): (o: Obs)
    ensures o.code == ValueOf(currency) && o.code.val == currency
    ensures o.time == time && o.rate == rate
  {
    Obs(ValueOf(currency), time, rate)
  }

  /** Equality of observations compares all three fields. */
  lemma ObsEquality(a: Obs, b: Obs)
    ensures a == b <==> a.code == b.code && a.time == b.time && a.rate == b.rate
  {
  }

  /** A dramatic move between two observations, kept in time order. */
  datatype Flagged = Flagged(percentage: real, older: Obs, newer: Obs)

  /**
   * The FlaggedChange constructor: the pair is put in time order, `a`
   * staying first when the two share a timestamp.
   */
  function MakeFlagged(percentage: real, a: Obs, b: Obs): (f: Flagged)
    ensures !Before(f.newer.time, f.older.time)
    ensures multiset{f.older, f.newer} == multiset{a, b}
    ensures a.time == b.time ==> f.older == a && f.newer == b
    ensures f.percentage == percentage
  {
    if Before(b.time, a.time) then Flagged(percentage, b, a) else Flagged(percentage, a, b)
  }

  /** With distinct timestamps the order of the arguments does not matter. */
  lemma MakeFlaggedSymmetric(percentage: real, a: Obs, b: Obs)
    requires a.time != b.time
    ensures MakeFlagged(percentage, a, b) == MakeFlagged(percentage, b, a)
    ensures Before(MakeFlagged(percentage, a, b).older.time, MakeFlagged(percentage, a, b).newer.time)
  {
    BeforeTotal(a.time, b.time);
  }

  /** Two flagged changes are equal exactly when percentage, older and newer all are. */
  lemma FlaggedEquality(f: Flagged, g: Flagged)
    ensures f == g <==> f.percentage == g.percentage && f.older == g.older && f.newer == g.newer
  {
  }
}
