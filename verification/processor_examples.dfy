/**
 * The processor's own test cases for the earliest revision, stated as
 * lemmas about the model. Each multi-line file is written as its lines, the text being
 * their join with "\n". The library parsers are parameters, so each case
 * states what it needs of them: the invalid date value is rejected, and the
 * full file's date, rates and times read as the test expects.
 */
module ProcessorExamples {
  import opened Wrappers
  import opened Strings
  import opened Markers
  import opened Model
  import opened Errors
  import opened Parser
  import Processor

  /** Receiving a text is receiving its lines. */
  lemma ReceiveJoined(lines: seq<string>, lex: Lexers)
    requires |lines| >= 1 && forall i :: 0 <= i < |lines| ==> '\n' !in lines[i]
    ensures Processor.ReceiveFile(Join(lines, '\n'), lex) == Processor.ReceiveLines(lines, lex)
  {
    SplitAllJoin(lines, '\n');
  }

  /** A first line without START-OF-FILE is reported as line 1, quoting the line. */
  lemma InvalidFirstLine(file: string, lex: Lexers)
    requires file == "invalid value"
    ensures Processor.ReceiveFile(file, lex) == Failure(Aborted([], UnexpectedLine(StartOfFile, 1, file)))
  {
    ContainsSameLength(file, AsString(StartOfFile));
    assert file[0] != AsString(StartOfFile)[0];
    SplitAllNoSeparator(file, '\n');
    Processor.WrongStart([file], lex);
  }

  /** START-OF-FIELD-LIST where the header should be: the date is missing. */
  lemma HeaderWithoutDate(lex: Lexers)
    ensures Processor.ReceiveFile(Join(["START-OF-FILE", "START-OF-FIELD-LIST"], '\n'), lex) == Failure(Aborted([], MissingDate))
  {
    var lines := ["START-OF-FILE", "START-OF-FIELD-LIST"];
    assert '=' !in lines[1];
    ReceiveJoined(lines, lex);
    Processor.MissingDateFile(lines, 1, lex);
  }

  /** The test's invalid value is drawn from `[\w ]`, so its line is a DATE line. */
  lemma InvalidValueChars(v: string)
    requires v == "invalid value"
    ensures KeyValueChars(v) && '\n' !in v
  {
    forall i | 0 <= i < |v| ensures IsWordChar(v[i]) || v[i] == ' ' {}
  }

  /** A DATE value the date parser rejects, straight after START-OF-FILE: reported on line 2. */
  lemma InvalidDateOnLineTwo(v: string, lex: Lexers)
    requires v == "invalid value" && lex.date(v).None?
    ensures Processor.ReceiveFile(Join(["START-OF-FILE", "DATE=" + v, ""], '\n'), lex) == Failure(Aborted([], InvalidDate(v, 2)))
  {
    var lines := ["START-OF-FILE", "DATE=" + v, ""];
    InvalidValueChars(v);
    Processor.DateLineMatches(v);
    ReceiveJoined(lines, lex);
    Processor.InvalidDateFile(lines, 1, v, lex);
  }

  /** `ADDITIONAL=VALUE` is a header line with another key. */
  lemma AdditionalIsOtherKey(k: string, v: string)
    requires k == "ADDITIONAL" && v == "VALUE"
    ensures Processor.OtherKey(k + "=" + v) && '\n' !in k + "=" + v
  {
    forall i | 0 <= i < |k| ensures IsWordChar(k[i]) {}
    forall i | 0 <= i < |v| ensures IsWordChar(v[i]) {}
    MatchKeyValueComplete(k, v);
  }

  /** The same after one other header line: reported on line 3. */
  lemma InvalidDateOnLineThree(k: string, w: string, v: string, lex: Lexers)
    requires k == "ADDITIONAL" && w == "VALUE"
    requires v == "invalid value" && lex.date(v).None?
    ensures Processor.ReceiveFile(Join(["START-OF-FILE", k + "=" + w, "DATE=" + v, ""], '\n'), lex)
      == Failure(Aborted([], InvalidDate(v, 3)))
  {
    var lines := ["START-OF-FILE", k + "=" + w, "DATE=" + v, ""];
    InvalidValueChars(v);
    Processor.DateLineMatches(v);
    AdditionalIsOtherKey(k, w);
    assert Processor.OtherKeys(lines, 1, 2);
    ReceiveJoined(lines, lex);
    Processor.InvalidDateFile(lines, 2, v, lex);
  }

  /** The lines of the test's complete file: header date `d`, three records with times `t1`, `t1` and `t2`. */
  function TestFile(d: string, t1: string, t2: string): seq<string>
  {
    ["START-OF-FILE", "DATE=" + d, "START-OF-FIELD-LIST",
     "CURRENCY", "EXCHANGE_RATE", "LAST_UPDATE", "END-OF-FIELD-LIST",
     "START-OF-EXCHANGE-RATES",
     "CHF" + "|" + "0.9832" + "|" + t1 + "|",
     "GBP" + "|" + "0.7849" + "|" + t1 + "|",
     "EUR" + "|" + "0.8677" + "|" + t2 + "|",
     "END-OF-EXCHANGE-RATES", "END-OF-FILE"]
  }

  /** The test's header date and record times hold no delimiter, and the date is drawn from `[\w ]`. */
  lemma TestValues(d: string, t1: string, t2: string)
    requires d == "20181015" && t1 == "17:12:59 10/14/2018" && t2 == "17:13:00 10/14/2018"
    ensures KeyValueChars(d) && '\n' !in d
    ensures '|' !in t1 && '\n' !in t1 && '|' !in t2 && '\n' !in t2
  {
    forall i | 0 <= i < |d| ensures IsWordChar(d[i]) {}
  }

  /** No line of the test's file holds a '\n'. */
  lemma TestFileLines(d: string, t1: string, t2: string)
    requires KeyValueChars(d) && '\n' !in d && '\n' !in t1 && '\n' !in t2
    ensures forall i :: 0 <= i < |TestFile(d, t1, t2)| ==> '\n' !in TestFile(d, t1, t2)[i]
  {
  }

  /** The lines between START-OF-FIELD-LIST and START-OF-EXCHANGE-RATES are too short to hold the rates literal. */
  lemma TestFileFieldList(lines: seq<string>)
    requires |lines| == 13 && lines[3] == "CURRENCY" && lines[4] == "EXCHANGE_RATE"
    requires lines[5] == "LAST_UPDATE" && lines[6] == "END-OF-FIELD-LIST"
    ensures forall j :: 3 <= j < 7 ==> !Contains(lines[j], AsString(StartOfExchangeRates))
  {
    forall j | 3 <= j < 7 ensures !Contains(lines[j], AsString(StartOfExchangeRates)) {
      NoRoomToContain(lines[j], AsString(StartOfExchangeRates));
    }
  }

  /** A record line `code|rate|time|` at index `j` is read as its three fields. */
  lemma RecordLineAt(lines: seq<string>, j: nat, code: string, rate: string, time: string, lex: Lexers)
    requires j < |lines| && lines[j] == code + "|" + rate + "|" + time + "|"
    requires '|' !in code && '|' !in rate && '|' !in time && time != ""
    requires lex.rate(rate).Some? && lex.time(time).Some?
    ensures Processor.GoodRecord(lines[j], lex)
    ensures Processor.RecordFrom(lines[j], lex) == NewObs(code, lex.time(time).value, lex.rate(rate).value)
  {
    Processor.ThreeFieldRecord(code, rate, time, lex);
  }

  /** Three good record lines in a row are good records, standing for their observations in order. */
  lemma ThreeRecordsAt(lines: seq<string>, i: nat, lex: Lexers)
    requires i + 3 <= |lines|
    requires Processor.GoodRecord(lines[i], lex) && Processor.GoodRecord(lines[i + 1], lex) && Processor.GoodRecord(lines[i + 2], lex)
    ensures Processor.GoodRecords(lines, i, i + 3, lex)
    ensures Processor.RecordsAt(lines, i, i + 3, lex) ==
      [Processor.RecordFrom(lines[i], lex), Processor.RecordFrom(lines[i + 1], lex), Processor.RecordFrom(lines[i + 2], lex)]
  {
    assert Processor.GoodRecords(lines, i + 2, i + 3, lex);
    assert Processor.GoodRecords(lines, i + 1, i + 3, lex);
    assert Processor.RecordsAt(lines, i + 2, i + 3, lex) == [Processor.RecordFrom(lines[i + 2], lex)];
    assert Processor.RecordsAt(lines, i + 1, i + 3, lex) == [Processor.RecordFrom(lines[i + 1], lex), Processor.RecordFrom(lines[i + 2], lex)];
  }

  /** The test's parsers read its three record lines as the expected changes. */
  lemma TestRecords(d: string, t1: string, t2: string, lex: Lexers)
    requires '|' !in t1 && '|' !in t2 && t1 != "" && t2 != ""
    requires lex.rate("0.9832") == Some(0.9832) && lex.rate("0.7849") == Some(0.7849) && lex.rate("0.8677") == Some(0.8677)
    requires lex.time(t1) == Some(DateTime(2018, 10, 14, 17, 12, 59, 0))
    requires lex.time(t2) == Some(DateTime(2018, 10, 14, 17, 13, 0, 0))
    ensures Processor.GoodRecords(TestFile(d, t1, t2), 8, 11, lex)
    ensures Processor.RecordsAt(TestFile(d, t1, t2), 8, 11, lex) == [
      NewObs("CHF", DateTime(2018, 10, 14, 17, 12, 59, 0), 0.9832),
      NewObs("GBP", DateTime(2018, 10, 14, 17, 12, 59, 0), 0.7849),
      NewObs("EUR", DateTime(2018, 10, 14, 17, 13, 0, 0), 0.8677)]
  {
    var lines := TestFile(d, t1, t2);
    RecordLineAt(lines, 8, "CHF", "0.9832", t1, lex);
    RecordLineAt(lines, 9, "GBP", "0.7849", t1, lex);
    RecordLineAt(lines, 10, "EUR", "0.8677", t2, lex);
    ThreeRecordsAt(lines, 8, lex);
  }

  /** The test's DATE line carries its date. */
  lemma TestDateLine(d: string, t1: string, t2: string)
    requires KeyValueChars(d) && d != ""
    ensures Processor.DateLine(TestFile(d, t1, t2)[1], d)
  {
    Processor.DateLineMatches(d);
  }

  /** The test's marker lines hold their literals. */
  lemma TestMarkers(d: string, t1: string, t2: string)
    ensures Contains(TestFile(d, t1, t2)[0], AsString(StartOfFile))
    ensures Contains(TestFile(d, t1, t2)[2], AsString(StartOfFieldList))
    ensures Contains(TestFile(d, t1, t2)[7], AsString(StartOfExchangeRates))
  {
  }

  /** The lines between the test's field list and its rates do not hold the rates literal. */
  lemma TestSkipped(d: string, t1: string, t2: string)
    ensures forall j :: 3 <= j < 7 ==> !Contains(TestFile(d, t1, t2)[j], AsString(StartOfExchangeRates))
  {
    TestFileFieldList(TestFile(d, t1, t2));
  }

  /** The test's header has no other keys, and END-OF-EXCHANGE-RATES follows its records. */
  lemma TestEnds(d: string, t1: string, t2: string)
    ensures Processor.OtherKeys(TestFile(d, t1, t2), 1, 1)
    ensures Processor.TokenAfter(TestFile(d, t1, t2), 10)
  {
  }

  /** The test's file has the shape of a well-formed file, and a token follows its records. */
  lemma TestFileShape(d: string, t1: string, t2: string, lex: Lexers)
    requires KeyValueChars(d) && d != "" && lex.date(d).Some?
    requires Processor.GoodRecords(TestFile(d, t1, t2), 8, 11, lex)
    ensures Processor.WellFormed(TestFile(d, t1, t2), 1, 7, d, lex)
    ensures Processor.TokenAfter(TestFile(d, t1, t2), 10)
  {
    TestDateLine(d, t1, t2);
    TestMarkers(d, t1, t2);
    TestSkipped(d, t1, t2);
    TestEnds(d, t1, t2);
  }

  /**
   * The test's complete file, with parsers that read its date, rates and
   * times as the test expects: the three changes are recorded in file
   * order, and the call completes.
   */
  lemma ReceiveTestFile(d: string, t1: string, t2: string, lex: Lexers)
    requires d == "20181015" && t1 == "17:12:59 10/14/2018" && t2 == "17:13:00 10/14/2018"
    requires lex.date(d) == Some(Date(2018, 10, 15))
    requires lex.rate("0.9832") == Some(0.9832) && lex.rate("0.7849") == Some(0.7849) && lex.rate("0.8677") == Some(0.8677)
    requires lex.time(t1) == Some(DateTime(2018, 10, 14, 17, 12, 59, 0))
    requires lex.time(t2) == Some(DateTime(2018, 10, 14, 17, 13, 0, 0))
    ensures Processor.ReceiveFile(Join(TestFile(d, t1, t2), '\n'), lex) == Success((Date(2018, 10, 15), [
      NewObs("CHF", DateTime(2018, 10, 14, 17, 12, 59, 0), 0.9832),
      NewObs("GBP", DateTime(2018, 10, 14, 17, 12, 59, 0), 0.7849),
      NewObs("EUR", DateTime(2018, 10, 14, 17, 13, 0, 0), 0.8677)]))
  {
    var lines := TestFile(d, t1, t2);
    TestValues(d, t1, t2);
    TestFileLines(d, t1, t2);
    ReceiveJoined(lines, lex);
    TestRecords(d, t1, t2, lex);
    TestFileShape(d, t1, t2, lex);
    Processor.WellFormedFile(lines, 1, 7, d, lex);
  }
}
