/**
 * The line-oriented file parser, StringParser, in its live revision
 * (package `parser`) and its earlier, near-identical revision (package
 * root): both read the same tokens, check the same markers and build the
 * same messages, so one model serves both.
 *
 * The input is the sequence of tokens the scanner yields with `\n` as
 * delimiter. The line counter goes up once per token read, blank ones
 * included, so it always equals the number of tokens consumed.
 */
module Parser {
  import opened Wrappers
  import opened Strings
  import opened Markers
  import opened Model
  import opened Errors

  /**
   * The library parsers the source calls, as partial functions: None
   * stands for the exception. `rate` is Double.parseDouble, `time` is
   * LocalDateTime.parse with the `H:m:s M/dd/yyyy` formatter and `date`
   * is LocalDate.parse with BASIC_ISO_DATE.
   */
  datatype Lexers = Lexers(
    rate: string -> Option<real>,
    time: string -> Option<DateTime>,
    date: string -> Option<Date>)

  /** The scanner's position: the tokens not yet read, and the line counter. */
  datatype Cursor = Cursor(rest: seq<string>, line: nat)

  /**
   * Processing stopped with `error`. The observations already handed to
   * the store, `recorded`, stay recorded: nothing is rolled back.
   */
  datatype Aborted = Aborted(recorded: seq<Obs>, error: ParseError)

  /**
   * scanNextLine: read tokens, counting each, until one is not empty; the
   * current line is that token with every carriage return removed.
   * Running out of tokens is "Unexpected end of file".
   */
  function ScanNextLine(c: Cursor): (r: Result<(string, Cursor), ParseError>)
    ensures r.Failure? ==> r.error == UnexpectedEndOfFile
    ensures r.Success? ==> |r.value.1.rest| < |c.rest| && r.value.1.line + |r.value.1.rest| == c.line + |c.rest|
    decreases |c.rest|
  {
    if |c.rest| == 0 then Failure(UnexpectedEndOfFile)
    else if c.rest[0] == "" then ScanNextLine(Cursor(c.rest[1..], c.line + 1))
    else Success((StripCR(c.rest[0]), Cursor(c.rest[1..], c.line + 1)))
  }

  /**
   * What scanNextLine reads: it fails exactly when every remaining token is
   * blank; otherwise it stops at the first non-blank token `k`, returns it
   * without carriage returns and leaves the counter `k + 1` further on.
   */
  lemma {:induction false} ScanNextLineSpec(c: Cursor)
    ensures ScanNextLine(c).Failure? <==> forall k :: 0 <= k < |c.rest| ==> c.rest[k] == ""
    ensures ScanNextLine(c).Success? ==>
      var k := |c.rest| - |ScanNextLine(c).value.1.rest| - 1;
      && 0 <= k < |c.rest|
      && (forall j :: 0 <= j < k ==> c.rest[j] == "")
      && c.rest[k] != ""
      && ScanNextLine(c).value.0 == StripCR(c.rest[k])
      && ScanNextLine(c).value.1 == Cursor(c.rest[k + 1..], c.line + k + 1)
    decreases |c.rest|
  {
    if |c.rest| > 0 && c.rest[0] == "" {
      var c' := Cursor(c.rest[1..], c.line + 1);
      ScanNextLineSpec(c');
      assert ScanNextLine(c) == ScanNextLine(c');
      if ScanNextLine(c').Success? {
        var k' := |c'.rest| - |ScanNextLine(c').value.1.rest| - 1;
        assert c.rest[k' + 2..] == c'.rest[k' + 1..];
        forall j | 0 <= j < k' + 1
          ensures c.rest[j] == ""
        {
          if j > 0 { assert c.rest[j] == c'.rest[j - 1]; }
        }
      } else {
        forall k | 0 <= k < |c.rest|
          ensures c.rest[k] == ""
        {
          if k > 0 { assert c.rest[k] == c'.rest[k - 1]; }
        }
      }
    }
  }

  /**
   * ensureNextLineMatches: the next line must be exactly the marker's
   * literal, or the error names the marker, the line number and the line found.
   */
  function ExpectLine(c: Cursor, m: Marker): (r: Result<Cursor, ParseError>)
    ensures r.Success? ==> ScanNextLine(c).Success? && ScanNextLine(c).value.0 == AsString(m)
    ensures r.Failure? ==> r.error.UnexpectedEndOfFile? || r.error.UnexpectedLine?
  {
    match ScanNextLine(c)
    case Failure(e) => Failure(e)
    case Success((text, next)) =>
      if text == AsString(m) then Success(next)
      else Failure(UnexpectedLine(m, next.line, text))
  }

  /**
   * The loop `while (!currentLineMatches(m)) scanNextLine()`, entered on a
   * line that is not `m`: lines are read and discarded, unchecked, until one is.
   */
  function SkipTo(c: Cursor, m: Marker): (r: Result<Cursor, ParseError>)
    ensures r.Success? ==> |r.value.rest| < |c.rest| && r.value.line + |r.value.rest| == c.line + |c.rest|
    ensures r.Failure? ==> r.error == UnexpectedEndOfFile
    decreases |c.rest|
  {
    match ScanNextLine(c)
    case Failure(e) => Failure(e)
    case Success((text, next)) =>
      if text == AsString(m) then Success(next) else SkipTo(next, m)
  }

  /**
   * getExchangeRateChangeFromCurrentLine: split on `|` (trailing empty
   * fields dropped), demand exactly three fields, then parse the rate and
   * after it the timestamp. A bad field count is an invalid file; a bad
   * rate or timestamp is the library's own exception.
   */
  function ParseRecord(text: string, line: nat, lex: Lexers): (r: Result<Obs, ParseError>)
    ensures r.Success? <==>
      var parts := JavaSplit(text, '|');
      |parts| == 3 && lex.rate(parts[1]).Some? && lex.time(parts[2]).Some?
    ensures |JavaSplit(text, '|')| != 3 ==> r == Failure(UnparsableRecord(text, line))
    ensures r.Success? ==> r.value.code.val == JavaSplit(text, '|')[0]
  {
    var parts := JavaSplit(text, '|');
    if |parts| != 3 then Failure(UnparsableRecord(text, line))
    else match lex.rate(parts[1])
      case None => Failure(NumberFormat(parts[1]))
      case Some(rate) =>
        match lex.time(parts[2])
        case None => Failure(DateTimeParse(parts[2]))
        case Some(time) => Success(NewObs(parts[0], time, rate))
  }

  /** Put observations recorded earlier in front of an outcome. */
  function Prepend(p: seq<Obs>, r: Result<(seq<Obs>, Cursor), Aborted>): (q: Result<(seq<Obs>, Cursor), Aborted>)
    ensures q.Success? <==> r.Success?
    ensures q.Success? ==> q.value == (p + r.value.0, r.value.1)
    ensures q.Failure? ==> q.error == Aborted(p + r.error.recorded, r.error.error)
  {
    match r
    case Success((obs, c)) => Success((p + obs, c))
    case Failure(Aborted(rec, e)) => Failure(Aborted(p + rec, e))
  }

  /**
   * The body loop: read a line; at END-OF-EXCHANGE-RATES stop, otherwise
   * parse it, hand the observation to the store and go on.
   */
  function Body(c: Cursor, lex: Lexers): (r: Result<(seq<Obs>, Cursor), Aborted>)
    ensures r.Success? ==> |r.value.1.rest| < |c.rest| && r.value.1.line + |r.value.1.rest| == c.line + |c.rest|
    decreases |c.rest|
  {
    match ScanNextLine(c)
    case Failure(e) => Failure(Aborted([], e))
    case Success((text, next)) =>
      if text == AsString(EndOfExchangeRates) then Success(([], next))
      else match ParseRecord(text, next.line, lex)
        case Failure(e) => Failure(Aborted([], e))
        case Success(o) => Prepend([o], Body(next, lex))
  }

  /** After the body: END-OF-FILE must follow END-OF-EXCHANGE-RATES. */
  function Finish(r: Result<(seq<Obs>, Cursor), Aborted>): Result<seq<Obs>, Aborted>
  {
    match r
    case Failure(a) => Failure(a)
    case Success((obs, next)) =>
      match ExpectLine(next, EndOfFile)
      case Failure(e) => Failure(Aborted(obs, e))
      case Success(_) => Success(obs)
  }

  /** What follows START-OF-EXCHANGE-RATES: the records, then END-OF-FILE. */
  function ParseRates(c: Cursor, lex: Lexers): Result<seq<Obs>, Aborted>
  {
    Finish(Body(c, lex))
  }

  /** Observations handed over earlier head the final outcome too. */
  function Handed(p: seq<Obs>, r: Result<seq<Obs>, Aborted>): Result<seq<Obs>, Aborted>
  {
    match r
    case Success(obs) => Success(p + obs)
    case Failure(Aborted(rec, e)) => Failure(Aborted(p + rec, e))
  }

  /**
   * processFile: START-OF-FILE first, header discarded up to
   * START-OF-EXCHANGE-RATES, the records, END-OF-EXCHANGE-RATES and
   * END-OF-FILE. Whatever follows END-OF-FILE is never read.
   */
  function ParseFile(tokens: seq<string>, lex: Lexers): (r: Result<seq<Obs>, Aborted>)
  {
    match ExpectLine(Cursor(tokens, 0), StartOfFile)
    case Failure(e) => Failure(Aborted([], e))
    case Success(afterStart) =>
      match SkipTo(afterStart, StartOfExchangeRates)
      case Failure(e) => Failure(Aborted([], e))
      case Success(afterHeader) => ParseRates(afterHeader, lex)
  }

  /** A record line as the files carry it: three fields and a trailing separator. */
  function RecordLine(code: string, rate: string, time: string): string
  {
    code + "|" + rate + "|" + time + "|"
  }

  /**
   * Reading a record line back: the fields come out as written, the rate
   * is parsed before the timestamp, and the first library failure is the error.
   */
  lemma RecordLineRoundTrip(code: string, rate: string, time: string, line: nat, lex: Lexers)
    requires '|' !in code && '|' !in rate && '|' !in time && time != ""
    ensures ParseRecord(RecordLine(code, rate, time), line, lex) ==
      if lex.rate(rate).None? then Failure(NumberFormat(rate))
      else if lex.time(time).None? then Failure(DateTimeParse(time))
      else Success(NewObs(code, lex.time(time).value, lex.rate(rate).value))
  {
    SplitThreeFields(code, rate, time, '|');
    assert RecordLine(code, rate, time) == code + ['|'] + rate + ['|'] + time + ['|'];
  }

  /** A marker line never has three fields, so the body can never take one for a record. */
  lemma MarkerIsNoRecord(m: Marker, line: nat, lex: Lexers)
    ensures JavaSplit(AsString(m), '|') == [AsString(m)]
    ensures ParseRecord(AsString(m), line, lex) == Failure(UnparsableRecord(AsString(m), line))
  {
  }

  /** The line number is only ever carried into the error, never into the observation. */
  lemma ParseRecordLine(text: string, m: nat, n: nat, lex: Lexers)
    ensures ParseRecord(text, m, lex).Success? == ParseRecord(text, n, lex).Success?
    ensures ParseRecord(text, m, lex).Success? ==> ParseRecord(text, m, lex).value == ParseRecord(text, n, lex).value
    ensures ParseRecord(text, m, lex).Failure? ==>
      EraseLine(ParseRecord(text, m, lex).error) == EraseLine(ParseRecord(text, n, lex).error)
  {
  }

  lemma ScanFirst(t: string, rest: seq<string>, n: nat)
    requires t != ""
    ensures ScanNextLine(Cursor([t] + rest, n)) == Success((StripCR(t), Cursor(rest, n + 1)))
  {
    assert ([t] + rest)[1..] == rest;
  }

  /** Blank tokens in front are read and counted, and change nothing else. */
  lemma {:induction false} ScanBlanks(blanks: seq<string>, rest: seq<string>, n: nat)
    requires forall i :: 0 <= i < |blanks| ==> blanks[i] == ""
    ensures ScanNextLine(Cursor(blanks + rest, n)) == ScanNextLine(Cursor(rest, n + |blanks|))
    decreases |blanks|
  {
    if |blanks| == 0 {
      assert blanks + rest == rest;
    } else {
      assert (blanks + rest)[0] == "";
      assert (blanks + rest)[1..] == blanks[1..] + rest;
      ScanBlanks(blanks[1..], rest, n + 1);
    }
  }

  /** A token other than the marker, blank or not, is passed over by the search for the marker. */
  lemma SkipPast(ts: seq<string>, n: nat, m: Marker)
    requires |ts| > 0 && StripCR(ts[0]) != AsString(m)
    ensures SkipTo(Cursor(ts, n), m) == SkipTo(Cursor(ts[1..], n + 1), m)
  {
    if ts[0] == "" {
      assert ScanNextLine(Cursor(ts, n)) == ScanNextLine(Cursor(ts[1..], n + 1));
    }
  }

  /** The header: every line up to the first START-OF-EXCHANGE-RATES is read and discarded unchecked. */
  lemma {:induction false} SkipToFirst(h: seq<string>, m: Marker, rest: seq<string>, n: nat, e: nat)
    requires forall i :: 0 <= i < |h| ==> StripCR(h[i]) != AsString(m)
    requires e == n + |h| + 1
    ensures SkipTo(Cursor(h + [AsString(m)] + rest, n), m) == Success(Cursor(rest, e))
    decreases |h|
  {
    var ts := h + [AsString(m)] + rest;
    if |h| == 0 {
      assert ts == [AsString(m)] + rest;
      ScanFirst(AsString(m), rest, n);
    } else {
      assert ts[0] == h[0] && ts[1..] == h[1..] + [AsString(m)] + rest;
      assert StripCR(h[0]) != AsString(m);
      SkipPast(ts, n, m);
      SkipToFirst(h[1..], m, rest, n + 1, e);
    }
  }

  /** Without the marker the header runs to the end of the input. */
  lemma {:induction false} SkipToMissing(h: seq<string>, m: Marker, n: nat)
    requires forall i :: 0 <= i < |h| ==> StripCR(h[i]) != AsString(m)
    ensures SkipTo(Cursor(h, n), m) == Failure(UnexpectedEndOfFile)
    decreases |h|
  {
    if |h| > 0 {
      assert StripCR(h[0]) != AsString(m);
      SkipToMissing(h[1..], m, n + 1);
    }
  }

  /** Every line parses as a record (and so is not a blank token). */
  ghost predicate RecordLines(b: seq<string>, lex: Lexers)
  {
    forall i :: 0 <= i < |b| ==> b[i] != "" && ParseRecord(StripCR(b[i]), 0, lex).Success?
  }

  /** The observations of record lines, in file order. */
  ghost function RecordsOf(b: seq<string>, lex: Lexers): seq<Obs>
    requires RecordLines(b, lex)
  {
    seq(|b|, i requires 0 <= i < |b| => ParseRecord(StripCR(b[i]), 0, lex).value)
  }

  lemma PrependNothing(r: Result<(seq<Obs>, Cursor), Aborted>)
    ensures Prepend([], r) == r
  {
    match r
    case Success((obs, c)) => assert [] + obs == obs;
    case Failure(Aborted(rec, e)) => assert [] + rec == rec;
  }

  lemma PrependTwice(p: seq<Obs>, q: seq<Obs>, r: Result<(seq<Obs>, Cursor), Aborted>)
    ensures Prepend(p, Prepend(q, r)) == Prepend(p + q, r)
  {
    match r
    case Success((obs, c)) => assert p + (q + obs) == p + q + obs;
    case Failure(Aborted(rec, e)) => assert p + (q + rec) == p + q + rec;
  }

  /** One record line: parsed, handed over, and the body goes on with the next token. */
  lemma BodyRecordStep(b: seq<string>, rest: seq<string>, n: nat, lex: Lexers)
    requires |b| > 0 && b[0] != "" && ParseRecord(StripCR(b[0]), 0, lex).Success?
    ensures Body(Cursor(b + rest, n), lex) ==
      Prepend([ParseRecord(StripCR(b[0]), 0, lex).value], Body(Cursor(b[1..] + rest, n + 1), lex))
  {
    assert b + rest == [b[0]] + (b[1..] + rest);
    ScanFirst(b[0], b[1..] + rest, n);
    MarkerIsNoRecord(EndOfExchangeRates, 0, lex);
    ParseRecordLine(StripCR(b[0]), 0, n + 1, lex);
  }

  lemma RecordsOfCons(b: seq<string>, lex: Lexers)
    requires |b| > 0 && RecordLines(b, lex)
    ensures RecordLines(b[1..], lex)
    ensures RecordsOf(b, lex) == [ParseRecord(StripCR(b[0]), 0, lex).value] + RecordsOf(b[1..], lex)
  {
    forall i | 0 <= i < |b[1..]|
      ensures b[1..][i] != "" && ParseRecord(StripCR(b[1..][i]), 0, lex).Success?
    {
      assert b[1..][i] == b[i + 1];
    }
  }

  /**
   * The body reads record lines one by one, in order, each handed to the
   * store before the next is read: whatever follows them, their
   * observations head the outcome, success or failure.
   */
  lemma {:induction false} BodyPrefix(b: seq<string>, rest: seq<string>, n: nat, m: nat, lex: Lexers)
    requires RecordLines(b, lex) && m == n + |b|
    ensures Body(Cursor(b + rest, n), lex) == Prepend(RecordsOf(b, lex), Body(Cursor(rest, m), lex))
    decreases |b|
  {
    if |b| == 0 {
      assert b + rest == rest;
      assert RecordsOf(b, lex) == [];
      PrependNothing(Body(Cursor(rest, n), lex));
    } else {
      var o := ParseRecord(StripCR(b[0]), 0, lex).value;
      BodyRecordStep(b, rest, n, lex);
      RecordsOfCons(b, lex);
      BodyPrefix(b[1..], rest, n + 1, m, lex);
      PrependTwice([o], RecordsOf(b[1..], lex), Body(Cursor(rest, m), lex));
    }
  }

  /** The lines a file must open with: START-OF-FILE, the header, START-OF-EXCHANGE-RATES. */
  function Opening(h: seq<string>): seq<string>
  {
    [AsString(StartOfFile)] + h + [AsString(StartOfExchangeRates)]
  }

  /** A header: no line of it reads START-OF-EXCHANGE-RATES. Nothing else is asked of it. */
  ghost predicate Header(h: seq<string>)
  {
    forall i :: 0 <= i < |h| ==> StripCR(h[i]) != AsString(StartOfExchangeRates)
  }

  /** After the opening the counter stands at the number of lines read, `|h| + 2`. */
  lemma OpeningRead(h: seq<string>, x: seq<string>, lex: Lexers)
    requires Header(h)
    ensures ParseFile(Opening(h) + x, lex) == ParseRates(Cursor(x, |h| + 2), lex)
  {
    var ts := Opening(h) + x;
    assert ts == [AsString(StartOfFile)] + (h + [AsString(StartOfExchangeRates)] + x);
    ScanFirst(AsString(StartOfFile), h + [AsString(StartOfExchangeRates)] + x, 0);
    SkipToFirst(h, StartOfExchangeRates, x, 1, |h| + 2);
  }

  lemma FinishPrepend(p: seq<Obs>, r: Result<(seq<Obs>, Cursor), Aborted>)
    ensures Finish(Prepend(p, r)) == Handed(p, Finish(r))
  {
  }

  lemma OpeningThen(h: seq<string>, b: seq<string>, y: seq<string>, lex: Lexers)
    requires Header(h)
    ensures ParseFile(Opening(h) + b + y, lex) == ParseRates(Cursor(b + y, |h| + 2), lex)
  {
    var x := b + y;
    assert Opening(h) + b + y == Opening(h) + x;
    OpeningRead(h, x, lex);
  }

  lemma RatesPrefix(b: seq<string>, y: seq<string>, n: nat, lex: Lexers)
    requires RecordLines(b, lex)
    ensures ParseRates(Cursor(b + y, n), lex) == Handed(RecordsOf(b, lex), ParseRates(Cursor(y, n + |b|), lex))
  {
    BodyPrefix(b, y, n, n + |b|, lex);
    FinishPrepend(RecordsOf(b, lex), Body(Cursor(y, n + |b|), lex));
  }

  /** What follows the opening: record lines, then `y`, read from line `n + |b| + 1` on. */
  lemma RatesAfterRecords(h: seq<string>, b: seq<string>, y: seq<string>, n: nat, lex: Lexers)
    requires Header(h) && RecordLines(b, lex) && n == |h| + 2
    ensures ParseFile(Opening(h) + b + y, lex) == Handed(RecordsOf(b, lex), ParseRates(Cursor(y, n + |b|), lex))
  {
    OpeningThen(h, b, y, lex);
    RatesPrefix(b, y, n, lex);
  }

  /** The file's outcome once the outcome after its records, `r`, is known. */
  lemma FileOutcome(h: seq<string>, b: seq<string>, y: seq<string>, n: nat, lex: Lexers, r: Result<seq<Obs>, Aborted>)
    requires Header(h) && RecordLines(b, lex) && n == |h| + 2
    requires ParseRates(Cursor(y, n + |b|), lex) == r
    ensures ParseFile(Opening(h) + b + y, lex) == Handed(RecordsOf(b, lex), r)
  {
    RatesAfterRecords(h, b, y, n, lex);
  }

  lemma RatesEnd(y: seq<string>, m: nat, lex: Lexers)
    requires |y| >= 2 && y[0] != "" && StripCR(y[0]) == AsString(EndOfExchangeRates)
    requires y[1] != "" && StripCR(y[1]) == AsString(EndOfFile)
    ensures ParseRates(Cursor(y, m), lex) == Success([])
  {
    assert y == [y[0]] + y[1..];
    ScanFirst(y[0], y[1..], m);
    assert y[1..] == [y[1]] + y[2..];
    ScanFirst(y[1], y[2..], m + 1);
  }

  lemma RatesBadLine(y: seq<string>, m: nat, lex: Lexers)
    requires |y| >= 1 && y[0] != "" && StripCR(y[0]) != AsString(EndOfExchangeRates)
    requires ParseRecord(StripCR(y[0]), m + 1, lex).Failure?
    ensures ParseRates(Cursor(y, m), lex) == Failure(Aborted([], ParseRecord(StripCR(y[0]), m + 1, lex).error))
  {
    assert y == [y[0]] + y[1..];
    ScanFirst(y[0], y[1..], m);
  }

  lemma RatesRunOut(y: seq<string>, m: nat, lex: Lexers)
    requires forall i :: 0 <= i < |y| ==> y[i] == ""
    ensures ParseRates(Cursor(y, m), lex) == Failure(Aborted([], UnexpectedEndOfFile))
  {
    ScanNextLineSpec(Cursor(y, m));
  }

  lemma RatesNoTrailer(y: seq<string>, m: nat, lex: Lexers)
    requires |y| >= 1 && y[0] != "" && StripCR(y[0]) == AsString(EndOfExchangeRates)
    requires forall i :: 1 <= i < |y| ==> y[i] == ""
    ensures ParseRates(Cursor(y, m), lex) == Failure(Aborted([], UnexpectedEndOfFile))
  {
    assert y == [y[0]] + y[1..];
    ScanFirst(y[0], y[1..], m);
    ScanNextLineSpec(Cursor(y[1..], m + 1));
  }

  lemma RatesWrongTrailer(y: seq<string>, m: nat, lex: Lexers)
    requires |y| >= 2 && y[0] != "" && StripCR(y[0]) == AsString(EndOfExchangeRates)
    requires y[1] != "" && StripCR(y[1]) != AsString(EndOfFile)
    ensures ParseRates(Cursor(y, m), lex) == Failure(Aborted([], UnexpectedLine(EndOfFile, m + 2, StripCR(y[1]))))
  {
    assert y == [y[0]] + y[1..];
    ScanFirst(y[0], y[1..], m);
    assert y[1..] == [y[1]] + y[2..];
    ScanFirst(y[1], y[2..], m + 1);
  }

  /**
   * A well-formed file yields the observations of its record lines, all
   * of them and in file order: after the records come END-OF-EXCHANGE-RATES
   * and END-OF-FILE, the header is not looked at and nothing after
   * END-OF-FILE is read.
   */
  lemma WellFormedFile(h: seq<string>, b: seq<string>, y: seq<string>, lex: Lexers)
    requires Header(h) && RecordLines(b, lex)
    requires |y| >= 2 && y[0] != "" && StripCR(y[0]) == AsString(EndOfExchangeRates)
    requires y[1] != "" && StripCR(y[1]) == AsString(EndOfFile)
    ensures ParseFile(Opening(h) + b + y, lex) == Success(RecordsOf(b, lex))
  {
    var n := |h| + 2;
    RatesEnd(y, n + |b|, lex);
    FileOutcome(h, b, y, n, lex, Success([]));
    assert RecordsOf(b, lex) + [] == RecordsOf(b, lex);
  }

  /**
   * A line in the rates section, `y[0]`, that is neither a record nor
   * END-OF-EXCHANGE-RATES stops the file at that line, numbered
   * `|h| + |b| + 3`; the records before it have been handed over.
   */
  lemma MalformedLine(h: seq<string>, b: seq<string>, y: seq<string>, lex: Lexers)
    requires Header(h) && RecordLines(b, lex)
    requires |y| >= 1 && y[0] != "" && StripCR(y[0]) != AsString(EndOfExchangeRates)
    requires ParseRecord(StripCR(y[0]), |h| + |b| + 3, lex).Failure?
    ensures ParseFile(Opening(h) + b + y, lex)
      == Failure(Aborted(RecordsOf(b, lex), ParseRecord(StripCR(y[0]), |h| + |b| + 3, lex).error))
  {
    var n := |h| + 2;
    var e := ParseRecord(StripCR(y[0]), |h| + |b| + 3, lex).error;
    RatesBadLine(y, n + |b|, lex);
    FileOutcome(h, b, y, n, lex, Failure(Aborted([], e)));
    assert RecordsOf(b, lex) + [] == RecordsOf(b, lex);
  }

  /** In particular a line without three fields is reported as unparsable, an invalid file. */
  lemma MalformedFieldCount(h: seq<string>, b: seq<string>, y: seq<string>, lex: Lexers)
    requires Header(h) && RecordLines(b, lex)
    requires |y| >= 1 && y[0] != "" && StripCR(y[0]) != AsString(EndOfExchangeRates)
    requires |JavaSplit(StripCR(y[0]), '|')| != 3
    ensures ParseFile(Opening(h) + b + y, lex)
      == Failure(Aborted(RecordsOf(b, lex), UnparsableRecord(StripCR(y[0]), |h| + |b| + 3)))
    ensures IsInvalidFile(UnparsableRecord(StripCR(y[0]), |h| + |b| + 3))
  {
    MalformedLine(h, b, y, lex);
  }

  /**
   * A record whose rate does not parse escapes as the library's
   * NumberFormatException, not as an invalid-file error.
   */
  lemma BadRateEscapes(h: seq<string>, b: seq<string>, code: string, rate: string, time: string,
                       y: seq<string>, lex: Lexers)
    requires Header(h) && RecordLines(b, lex)
    requires '|' !in code && '|' !in rate && '|' !in time && time != ""
    requires '\r' !in code && '\r' !in rate && '\r' !in time
    requires lex.rate(rate).None?
    requires |y| >= 1 && y[0] == RecordLine(code, rate, time)
    ensures ParseFile(Opening(h) + b + y, lex) == Failure(Aborted(RecordsOf(b, lex), NumberFormat(rate)))
    ensures !IsInvalidFile(NumberFormat(rate))
  {
    var t := RecordLine(code, rate, time);
    assert StripCR(t) == t;
    RecordLineRoundTrip(code, rate, time, |h| + |b| + 3, lex);
    MarkerIsNoRecord(EndOfExchangeRates, 0, lex);
    RecordLineRoundTrip(code, rate, time, 0, lex);
    MalformedLine(h, b, y, lex);
  }

  /** Input that ends inside the rates section, END-OF-EXCHANGE-RATES never seen: unexpected end of file. */
  lemma RatesNeverEnd(h: seq<string>, b: seq<string>, y: seq<string>, lex: Lexers)
    requires Header(h) && RecordLines(b, lex)
    requires forall i :: 0 <= i < |y| ==> y[i] == ""
    ensures ParseFile(Opening(h) + b + y, lex) == Failure(Aborted(RecordsOf(b, lex), UnexpectedEndOfFile))
  {
    var n := |h| + 2;
    RatesRunOut(y, n + |b|, lex);
    FileOutcome(h, b, y, n, lex, Failure(Aborted([], UnexpectedEndOfFile)));
    assert RecordsOf(b, lex) + [] == RecordsOf(b, lex);
  }

  /** END-OF-EXCHANGE-RATES as the last line: unexpected end of file, the records handed over. */
  lemma MissingEndOfFile(h: seq<string>, b: seq<string>, y: seq<string>, lex: Lexers)
    requires Header(h) && RecordLines(b, lex)
    requires |y| >= 1 && y[0] != "" && StripCR(y[0]) == AsString(EndOfExchangeRates)
    requires forall i :: 1 <= i < |y| ==> y[i] == ""
    ensures ParseFile(Opening(h) + b + y, lex) == Failure(Aborted(RecordsOf(b, lex), UnexpectedEndOfFile))
  {
    var n := |h| + 2;
    RatesNoTrailer(y, n + |b|, lex);
    FileOutcome(h, b, y, n, lex, Failure(Aborted([], UnexpectedEndOfFile)));
    assert RecordsOf(b, lex) + [] == RecordsOf(b, lex);
  }

  /** Any other line after END-OF-EXCHANGE-RATES is reported against END-OF-FILE, on line `|h| + |b| + 4`. */
  lemma WrongTrailer(h: seq<string>, b: seq<string>, y: seq<string>, lex: Lexers)
    requires Header(h) && RecordLines(b, lex)
    requires |y| >= 2 && y[0] != "" && StripCR(y[0]) == AsString(EndOfExchangeRates)
    requires y[1] != "" && StripCR(y[1]) != AsString(EndOfFile)
    ensures ParseFile(Opening(h) + b + y, lex)
      == Failure(Aborted(RecordsOf(b, lex), UnexpectedLine(EndOfFile, |h| + |b| + 4, StripCR(y[1]))))
  {
    var n := |h| + 2;
    RatesWrongTrailer(y, n + |b|, lex);
    FileOutcome(h, b, y, n, lex, Failure(Aborted([], UnexpectedLine(EndOfFile, |h| + |b| + 4, StripCR(y[1])))));
    assert RecordsOf(b, lex) + [] == RecordsOf(b, lex);
  }

  /**
   * A first non-blank line other than START-OF-FILE is rejected before
   * anything is recorded, on its own line number: the blank lines in front
   * are counted.
   */
  lemma WrongStart(blanks: seq<string>, t: string, rest: seq<string>, lex: Lexers)
    requires forall i :: 0 <= i < |blanks| ==> blanks[i] == ""
    requires t != "" && StripCR(t) != AsString(StartOfFile)
    ensures ParseFile(blanks + [t] + rest, lex)
      == Failure(Aborted([], UnexpectedLine(StartOfFile, |blanks| + 1, StripCR(t))))
  {
    assert blanks + [t] + rest == blanks + ([t] + rest);
    ScanBlanks(blanks, [t] + rest, 0);
    ScanFirst(t, rest, |blanks|);
  }

  /** Input of blank lines only, the empty input included, ends unexpectedly. */
  lemma BlankInput(blanks: seq<string>, lex: Lexers)
    requires forall i :: 0 <= i < |blanks| ==> blanks[i] == ""
    ensures ParseFile(blanks, lex) == Failure(Aborted([], UnexpectedEndOfFile))
  {
    ScanNextLineSpec(Cursor(blanks, 0));
  }

  /** A file without START-OF-EXCHANGE-RATES ends unexpectedly, nothing recorded. */
  lemma NoRatesSection(h: seq<string>, lex: Lexers)
    requires Header(h)
    ensures ParseFile([AsString(StartOfFile)] + h, lex) == Failure(Aborted([], UnexpectedEndOfFile))
  {
    ScanFirst(AsString(StartOfFile), h, 0);
    SkipToMissing(h, StartOfExchangeRates, 1);
  }

  /** The lines the parser gets to see: the non-blank tokens, carriage returns removed. */
  function Visible(ts: seq<string>): (r: seq<string>)
    ensures |r| <= |ts|
  {
    if |ts| == 0 then []
    else if ts[0] == "" then Visible(ts[1..])
    else [StripCR(ts[0])] + Visible(ts[1..])
  }

  lemma {:induction false} VisibleConcat(x: seq<string>, y: seq<string>)
    ensures Visible(x + y) == Visible(x) + Visible(y)
    decreases |x|
  {
    if |x| == 0 {
      assert x + y == y;
    } else {
      assert (x + y)[1..] == x[1..] + y;
      VisibleConcat(x[1..], y);
    }
  }

  /** An outcome with its line numbers erased. */
  function EraseLines(r: Result<seq<Obs>, Aborted>): Result<seq<Obs>, Aborted>
  {
    match r
    case Success(_) => r
    case Failure(Aborted(rec, e)) => Failure(Aborted(rec, EraseLine(e)))
  }

  /** Cursors with the same visible lines ahead scan the same line and stay in step. */
  lemma {:induction false} ScanCongruent(c: Cursor, d: Cursor)
    requires Visible(c.rest) == Visible(d.rest)
    ensures ScanNextLine(c).Success? == ScanNextLine(d).Success?
    ensures ScanNextLine(c).Success? ==>
      && ScanNextLine(c).value.0 == ScanNextLine(d).value.0
      && Visible(ScanNextLine(c).value.1.rest) == Visible(ScanNextLine(d).value.1.rest)
    decreases |c.rest| + |d.rest|
  {
    if |c.rest| > 0 && c.rest[0] == "" {
      ScanCongruent(Cursor(c.rest[1..], c.line + 1), d);
    } else if |d.rest| > 0 && d.rest[0] == "" {
      ScanCongruent(c, Cursor(d.rest[1..], d.line + 1));
    } else if |c.rest| > 0 && |d.rest| > 0 {
      var vc := Visible(c.rest);
      var vd := Visible(d.rest);
      assert vc[0] == StripCR(c.rest[0]) && vc[1..] == Visible(c.rest[1..]);
      assert vd[0] == StripCR(d.rest[0]) && vd[1..] == Visible(d.rest[1..]);
    }
  }

  lemma ExpectCongruent(c: Cursor, d: Cursor, m: Marker)
    requires Visible(c.rest) == Visible(d.rest)
    ensures ExpectLine(c, m).Success? == ExpectLine(d, m).Success?
    ensures ExpectLine(c, m).Success? ==> Visible(ExpectLine(c, m).value.rest) == Visible(ExpectLine(d, m).value.rest)
    ensures ExpectLine(c, m).Failure? ==> EraseLine(ExpectLine(c, m).error) == EraseLine(ExpectLine(d, m).error)
  {
    ScanCongruent(c, d);
  }

  lemma {:induction false} SkipToCongruent(c: Cursor, d: Cursor, m: Marker)
    requires Visible(c.rest) == Visible(d.rest)
    ensures SkipTo(c, m).Success? == SkipTo(d, m).Success?
    ensures SkipTo(c, m).Success? ==> Visible(SkipTo(c, m).value.rest) == Visible(SkipTo(d, m).value.rest)
    decreases |c.rest|
  {
    ScanCongruent(c, d);
    if ScanNextLine(c).Success? && ScanNextLine(c).value.0 != AsString(m) {
      SkipToCongruent(ScanNextLine(c).value.1, ScanNextLine(d).value.1, m);
    }
  }

  /** Body outcomes that agree on everything but line numbers and blank tokens ahead. */
  ghost predicate SameBody(r: Result<(seq<Obs>, Cursor), Aborted>, q: Result<(seq<Obs>, Cursor), Aborted>)
  {
    && r.Success? == q.Success?
    && (r.Success? ==> r.value.0 == q.value.0 && Visible(r.value.1.rest) == Visible(q.value.1.rest))
    && (r.Failure? ==> r.error.recorded == q.error.recorded && EraseLine(r.error.error) == EraseLine(q.error.error))
  }

  lemma {:induction false} BodyCongruent(c: Cursor, d: Cursor, lex: Lexers)
    requires Visible(c.rest) == Visible(d.rest)
    ensures SameBody(Body(c, lex), Body(d, lex))
    decreases |c.rest|
  {
    ScanCongruent(c, d);
    if ScanNextLine(c).Success? {
      var text := ScanNextLine(c).value.0;
      var next := ScanNextLine(c).value.1;
      var next' := ScanNextLine(d).value.1;
      if text != AsString(EndOfExchangeRates) {
        ParseRecordLine(text, next.line, next'.line, lex);
        if ParseRecord(text, next.line, lex).Success? {
          BodyCongruent(next, next', lex);
        }
      }
    }
  }

  lemma RatesCongruent(c: Cursor, d: Cursor, lex: Lexers)
    requires Visible(c.rest) == Visible(d.rest)
    ensures EraseLines(ParseRates(c, lex)) == EraseLines(ParseRates(d, lex))
  {
    BodyCongruent(c, d, lex);
    if Body(c, lex).Success? {
      ExpectCongruent(Body(c, lex).value.1, Body(d, lex).value.1, EndOfFile);
    }
  }

  /**
   * Blank tokens are skipped wherever they stand: two inputs with the same
   * visible lines record the same observations and fail, if at all, with
   * the same error up to its line number.
   */
  lemma FileCongruent(a: seq<string>, b: seq<string>, lex: Lexers)
    requires Visible(a) == Visible(b)
    ensures EraseLines(ParseFile(a, lex)) == EraseLines(ParseFile(b, lex))
    ensures ParseFile(a, lex).Success? ==> ParseFile(b, lex) == ParseFile(a, lex)
  {
    var c := Cursor(a, 0);
    var d := Cursor(b, 0);
    ExpectCongruent(c, d, StartOfFile);
    if ExpectLine(c, StartOfFile).Success? {
      var c1 := ExpectLine(c, StartOfFile).value;
      var d1 := ExpectLine(d, StartOfFile).value;
      SkipToCongruent(c1, d1, StartOfExchangeRates);
      if SkipTo(c1, StartOfExchangeRates).Success? {
        RatesCongruent(SkipTo(c1, StartOfExchangeRates).value, SkipTo(d1, StartOfExchangeRates).value, lex);
      }
    }
  }

  /** One more blank line anywhere changes nothing but line numbers. */
  lemma BlankLineIgnored(ts: seq<string>, i: nat, lex: Lexers)
    requires i <= |ts|
    ensures EraseLines(ParseFile(ts[..i] + [""] + ts[i..], lex)) == EraseLines(ParseFile(ts, lex))
    ensures ParseFile(ts, lex).Success? ==> ParseFile(ts[..i] + [""] + ts[i..], lex) == ParseFile(ts, lex)
  {
    VisibleConcat(ts[..i] + [""], ts[i..]);
    VisibleConcat(ts[..i], [""]);
    VisibleConcat(ts[..i], ts[i..]);
    assert ts[..i] + ts[i..] == ts;
    assert Visible([""]) == [];
    FileCongruent(ts, ts[..i] + [""] + ts[i..], lex);
  }

  /** The same lines with Windows line endings: every token keeps a trailing carriage return. */
  function WithCR(ts: seq<string>): (r: seq<string>)
    ensures |r| == |ts|
  {
    seq(|ts|, i requires 0 <= i < |ts| => ts[i] + "\r")
  }

  lemma {:induction false} VisibleWithCR(ts: seq<string>)
    requires forall i :: 0 <= i < |ts| ==> ts[i] != ""
    ensures Visible(WithCR(ts)) == Visible(ts)
    decreases |ts|
  {
    if |ts| > 0 {
      var w := WithCR(ts);
      assert w[0] == ts[0] + "\r";
      StripCRTrailing(ts[0]);
      assert w[1..] == WithCR(ts[1..]);
      VisibleWithCR(ts[1..]);
    }
  }

  /**
   * Windows line endings: when no line is blank, the carriage returns are
   * removed before any line is compared or split, and the outcome is the
   * same as with `\n` alone, up to line numbers.
   */
  lemma WindowsLineEndings(ts: seq<string>, lex: Lexers)
    requires forall i :: 0 <= i < |ts| ==> ts[i] != ""
    ensures EraseLines(ParseFile(WithCR(ts), lex)) == EraseLines(ParseFile(ts, lex))
    ensures ParseFile(ts, lex).Success? ==> ParseFile(WithCR(ts), lex) == ParseFile(ts, lex)
  {
    VisibleWithCR(ts);
    FileCongruent(ts, WithCR(ts), lex);
  }

  /**
   * The carriage return is removed only after the blank check: the blank
   * line of a Windows file, the token "\r", is not skipped but read as an
   * empty line, which here fails the START-OF-FILE check.
   */
  lemma CarriageReturnLineNotSkipped(rest: seq<string>, lex: Lexers)
    ensures ParseFile(["\r"] + rest, lex) == Failure(Aborted([], UnexpectedLine(StartOfFile, 1, "")))
  {
    assert StripCR("\r") == "";
    assert [] + ["\r"] + rest == ["\r"] + rest;
    WrongStart([], "\r", rest, lex);
  }

  /**
   * A marker line other than END-OF-EXCHANGE-RATES in the rates section
   * has one field, not three, so it is reported as unparsable on its line.
   */
  lemma StrayMarkerInBody(h: seq<string>, b: seq<string>, m: Marker, y: seq<string>, lex: Lexers)
    requires Header(h) && RecordLines(b, lex) && m != EndOfExchangeRates
    requires |y| >= 1 && y[0] == AsString(m)
    ensures ParseFile(Opening(h) + b + y, lex)
      == Failure(Aborted(RecordsOf(b, lex), UnparsableRecord(AsString(m), |h| + |b| + 3)))
  {
    AsStringInjective(m, EndOfExchangeRates);
    MarkerIsNoRecord(m, 0, lex);
    MalformedFieldCount(h, b, y, lex);
  }

  /**
   * The record of the parser tests, `CHF|0.9832|17:12:59 10/14/2018|`, with
   * its three fields left open: any fields free of `|` and of carriage
   * returns that the library parsers accept.
   */
  ghost predicate GoodFields(code: string, rate: string, time: string, lex: Lexers)
  {
    && '|' !in code && '|' !in rate && '|' !in time && time != ""
    && '\r' !in code && '\r' !in rate && '\r' !in time
    && lex.rate(rate).Some? && lex.time(time).Some?
  }

  lemma OneRecord(code: string, rate: string, time: string, lex: Lexers)
    requires GoodFields(code, rate, time, lex)
    ensures RecordLines([RecordLine(code, rate, time)], lex)
    ensures RecordsOf([RecordLine(code, rate, time)], lex) == [NewObs(code, lex.time(time).value, lex.rate(rate).value)]
  {
    assert StripCR(RecordLine(code, rate, time)) == RecordLine(code, rate, time);
    RecordLineRoundTrip(code, rate, time, 0, lex);
  }

  /**
   * The first line "invalid value" is reported on line 1 against
   * START-OF-FILE; after one blank line, on line 2.
   */
  lemma WrongStartExample(lex: Lexers)
    ensures ParseFile(["invalid value"], lex) == Failure(Aborted([], UnexpectedLine(StartOfFile, 1, "invalid value")))
    ensures ParseFile(["", "invalid value"], lex) == Failure(Aborted([], UnexpectedLine(StartOfFile, 2, "invalid value")))
  {
    assert '\r' !in "invalid value";
    assert [] + ["invalid value"] + [] == ["invalid value"];
    WrongStart([], "invalid value", [], lex);
    assert [""] + ["invalid value"] + [] == ["", "invalid value"];
    WrongStart([""], "invalid value", [], lex);
  }

  lemma DateHeader()
    ensures Header(["DATE=20181015"])
  {
    assert '\r' !in "DATE=20181015";
    assert StripCR("DATE=20181015") == "DATE=20181015";
  }

  /**
   * END-OF-EXCHANGE-RATES missing: END-OF-FILE is taken for a record and
   * fails the field count on line 5, after the record before it was handed over.
   */
  lemma MissingEndOfExchangeRatesExample(code: string, rate: string, time: string, lex: Lexers)
    requires GoodFields(code, rate, time, lex)
    ensures ParseFile(
      [AsString(StartOfFile), "DATE=20181015", AsString(StartOfExchangeRates),
       RecordLine(code, rate, time), AsString(EndOfFile)], lex)
      == Failure(Aborted([NewObs(code, lex.time(time).value, lex.rate(rate).value)],
                         UnparsableRecord(AsString(EndOfFile), 5)))
  {
    var h := ["DATE=20181015"];
    var b := [RecordLine(code, rate, time)];
    var y := [AsString(EndOfFile)];
    DateHeader();
    OneRecord(code, rate, time, lex);
    StrayMarkerInBody(h, b, EndOfFile, y, lex);
    assert Opening(h) + b + y ==
      [AsString(StartOfFile), "DATE=20181015", AsString(StartOfExchangeRates),
       RecordLine(code, rate, time), AsString(EndOfFile)];
  }

  /** END-OF-FILE missing: the input ends after END-OF-EXCHANGE-RATES, the record handed over. */
  lemma MissingEndOfFileExample(code: string, rate: string, time: string, lex: Lexers)
    requires GoodFields(code, rate, time, lex)
    ensures ParseFile(
      [AsString(StartOfFile), "DATE=20181015", AsString(StartOfExchangeRates),
       RecordLine(code, rate, time), AsString(EndOfExchangeRates)], lex)
      == Failure(Aborted([NewObs(code, lex.time(time).value, lex.rate(rate).value)], UnexpectedEndOfFile))
  {
    var h := ["DATE=20181015"];
    var b := [RecordLine(code, rate, time)];
    var y := [AsString(EndOfExchangeRates)];
    DateHeader();
    OneRecord(code, rate, time, lex);
    MissingEndOfFile(h, b, y, lex);
    assert Opening(h) + b + y ==
      [AsString(StartOfFile), "DATE=20181015", AsString(StartOfExchangeRates),
       RecordLine(code, rate, time), AsString(EndOfExchangeRates)];
  }
}
