# Exchange-rate file pipeline, modelled in Dafny

This project models the core of a small Java pipeline for exchange-rate files,
which it reads in three revisions:

- **The file readers.**
  - The live `parser/StringParser` and its earlier, near-identical twin
    `StringParser` share one model, module `Parser`. It reads the
    `\n`-delimited tokens of a file, skips empty tokens but counts every token
    read, and strips carriage returns. It requires `START-OF-FILE`, passes
    over every line up to `START-OF-EXCHANGE-RATES`, and splits each body line
    on `|` into exactly three fields. It stops at `END-OF-EXCHANGE-RATES` and
    then requires `END-OF-FILE`.
  - The earliest `StringExchangeRateFileProcessor` is modelled in module
    `Processor`. It searches for markers inside lines rather than comparing
    whole lines. It reads the header `key=value` lines until a `DATE`, whose
    value it parses as `yyyyMMdd`. It requires `START-OF-FIELD-LIST` on the
    line right after the date, skips to `START-OF-EXCHANGE-RATES`, and reads
    exactly three records and one more token.
- **The in-memory store.**
  - `SimpleDataStore`, both revisions, is modelled in module `Store`. It keeps
    each currency's observations in arrival order and an append-only list of
    flagged changes.
  - Recording an observation compares it with its latest strictly earlier and
    its earliest strictly later observation of the same currency. A pair is
    flagged when their rates differ by at least 20% of the smaller rate.
  - The store decides that threshold with the exact percentage
    (`Rates.Percentage`). The source rounds the ratio first. That rounding is
    modelled digit by digit in `Rates.PercentageAsWritten` and described under
    Findings.
  - The live revision also averages a currency's rates by year and by
    `YEAR_MONTHNAME`. This is module `Averages`. The earlier revision is the
    same store without the averages.
- **The value types** (module `Model`).
  - `CurrencyCode`/`Currency` become `Code`, and both `ExchangeRateChange`
    classes become `Obs`.
  - `FlaggedChange` becomes `Flagged`; it puts its pair in time order.
  - The two marker enums, `LineMarker` and `ExchangeRateFileMarker`, are
    modelled in module `Markers`.

How the model is built:

- Both readers are pure functions.
  - Both return a `Result`. A failure carries the observations already handed
    to the store, because nothing is rolled back.
  - The parser's input is the token sequence, with a cursor and the line
    counter.
  - The processor's input is the file's lines. Its scanner position is the
    unread part of the current line plus the index of the next line.
- The library parsers the code calls are the three partial functions of
  `Parser.Lexers`, supplied as parameters:
  - `Double.parseDouble`;
  - `LocalDateTime.parse` with the `H:m:s M/dd/yyyy` formatter;
  - `LocalDate.parse` with `BASIC_ISO_DATE`.
- The store is a `map<Code, seq<Obs>>` plus a `seq<Flagged>`.
  - Rates are exact reals.
  - A division by zero inside `record` is an explicit failure. That failure
    keeps the flags added before it.
- Module `Receiver` joins the live parser to the store. It feeds each parsed
  observation to `record` in file order.
- The exception messages are built in module `Errors`, as the Java code builds
  them.

Three behaviours of the code are worth noting:

- The readers skip only tokens that are exactly empty. A line holding only a
  carriage return is not skipped: `Parser.CarriageReturnLineNotSkipped`.
- The earliest processor's header pattern `[\w ]+=[\w ]*` rejects a date such
  as `2018-10-15`. That header is reported as having no date, not as having an
  invalid one: `Processor.DashedDateIsMissing`.
- The store's class comment says a change received twice is ignored. `record`
  appends it anyway. The set of all observations holds it once, but its
  currency's history holds it twice and the averages count it twice:
  `Store.DuplicateRecordedOnce`.

## Model

| member | source | states |
|---|---|---|
| Model.ValueOf | src/main/java/swissre/model/CurrencyCode.java:16-22 | `valueOf` wraps any string, unvalidated, and `getVal` gives the same string back |
| Model.ValueOfInjective | src/main/java/swissre/model/CurrencyCode.java:24-35 | two codes are equal exactly when their strings are; `toString` returns the wrapped string (Currency.java is identical) |
| Model.NewObs | src/main/java/swissre/model/ExchangeRateChange.java:12-32 | the String constructor wraps the currency with `valueOf`; the getters return the arguments unchanged; nothing is validated |
| Model.ObsEquality | src/main/java/swissre/model/ExchangeRateChange.java:34-42 | two observations are equal exactly when currency, timestamp and rate all are |
| Model.MakeFlagged | src/main/java/swissre/FlaggedChange.java:14-27 | the pair comes out in time order (older not after newer) and is the same multiset as the arguments; with equal timestamps the argument order is kept; the percentage is stored unchanged |
| Model.MakeFlaggedSymmetric | src/main/java/swissre/FlaggedChange.java:14-21 | with distinct timestamps, swapping the arguments gives the same flagged change, and older is strictly before newer |
| Model.FlaggedEquality | src/main/java/swissre/FlaggedChange.java:46-54 | two flagged changes are equal exactly when percentage, older and newer all are |
| Markers.AsString | src/main/java/swissre/parser/LineMarker.java:26-28 | every marker literal is non-empty and holds no pipe and no carriage return |
| Markers.AsStringInjective | src/main/java/swissre/parser/LineMarker.java:9-17 | distinct markers have distinct literals, in both directions |
| Markers.LineMarkerToStringIsLiteral | src/main/java/swissre/parser/LineMarker.java:30-33 | `LineMarker.toString` is the literal, so messages quote the literal |
| Markers.FileMarkerToStringDiffers | src/main/java/swissre/ExchangeRateFileMarker.java:6-25 | without a `toString` override the enum name is shown; it equals the literal exactly for CURRENCY, EXCHANGE_RATE and LAST_UPDATE |
| Strings.StripCR | src/main/java/swissre/parser/StringParser.java:135 | the result holds no carriage return and every other character of the input; a line without one is unchanged |
| Strings.StripCRConcat | src/main/java/swissre/parser/StringParser.java:135 | removing carriage returns distributes over concatenation |
| Strings.JavaSplit | src/main/java/swissre/parser/StringParser.java:106 | no field holds the separator, and when the separator occurs the last field is not empty (trailing empty fields are dropped) |
| Strings.SplitThreeFields | src/main/java/swissre/parser/StringParser.java:106-108 | three pipe-separated fields split into those three, with or without a trailing pipe |
| Strings.SplitFourFields | src/main/java/swissre/StringExchangeRateFileProcessor.java:69-71 | four pipe-separated fields, the last non-empty, split into those four |
| Strings.JoinSplitAll | src/main/java/swissre/StringExchangeRateFileProcessor.java:37-40 | joining the `\n`-cut lines of a text with `\n` gives the text back |
| Strings.SplitAllJoin | src/main/java/swissre/StringExchangeRateFileProcessor.java:37-40 | cutting a `\n`-joined list of `\n`-free lines gives the lines back |
| Strings.NatToString | src/main/java/swissre/parser/StringParser.java:109 | the decimal text of a line number is non-empty and all digits |
| Strings.DigitsValueOfNatToString | src/main/java/swissre/parser/StringParser.java:109 | reading the decimal text back gives the number |
| Strings.IntToStringInjective | src/main/java/swissre/persistence/SimpleDataStore.java:124 | distinct years print differently |
| Strings.ContainsSameLength | src/main/java/swissre/StringExchangeRateFileProcessor.java:134 | a line exactly as long as the marker contains it exactly when it equals it |
| Strings.AfterFirstFollowsMatch | src/main/java/swissre/StringExchangeRateFileProcessor.java:134 | after `findInLine`, the rest of the line is what follows the first occurrence of the literal |
| Strings.MatchKeyValueSound | src/main/java/swissre/StringExchangeRateFileProcessor.java:112-114 | a header match is `key=value` with a non-empty key, both drawn from `[\w ]` |
| Strings.MatchKeyValueComplete | src/main/java/swissre/StringExchangeRateFileProcessor.java:112-114 | every `key=value` with a non-empty key and both parts from `[\w ]` is matched, with that key and value |
| Strings.KeyValueSplit | src/main/java/swissre/StringExchangeRateFileProcessor.java:116 | splitting a match at `=` gives the key and the value, or the key alone when the value is empty |
| Errors.Message | src/main/java/swissre/parser/StringParser.java:138-145 | every InvalidExchangeRateFileException has a non-empty message |
| Errors.MessageLineReadsBack | src/main/java/swissre/parser/StringParser.java:109 | the line number reads back from the message: it is the number the text ends with, after the quoted line of an "Expected" message |
| Strings.TrailingDigits | src/main/java/swissre/parser/StringParser.java:109 | the result is all digits, a suffix of the text, and the longest such suffix |
| Strings.TrailingDigitsAfter | src/main/java/swissre/parser/StringParser.java:109 | digits written after a non-digit are exactly the digits the text ends with |
| Errors.WrongStartMessage | src/test/java/swissre/StringParserTest.java:59-65 | the text `Expected 'START-OF-FILE' on line 1, found 'invalid value'` |
| Errors.UnparsableMessage | src/test/java/swissre/StringParserTest.java:164-174 | the text `Unexpected exchange rate format found unable to parse 'END-OF-FILE' on line 5` |
| Errors.InvalidDateMessages | src/test/java/swissre/StringExchangeRateFileProcessorTest.java:55-69 | the texts `DATE 'invalid value' is not in the format YYYYMMDD on line 2` and `... on line 3` |
| Parser.ScanNextLine | src/main/java/swissre/parser/StringParser.java:126-136 | the only failure is `Unexpected end of file`; on success at least one token is consumed and the counter rises by exactly the tokens consumed |
| Parser.ScanNextLineSpec | src/main/java/swissre/parser/StringParser.java:126-134 | the scan fails exactly when every remaining token is empty; otherwise it returns the first non-empty token without carriage returns, past all the blanks before it |
| Parser.ExpectLine | src/main/java/swissre/parser/StringParser.java:138-145 | success means the next non-empty line is exactly the literal; failure is end of file or the "Expected" error |
| Parser.SkipTo | src/main/java/swissre/parser/StringParser.java:93-96 | passing over lines consumes at least one token, counts them all, and fails only at end of file |
| Parser.ParseRecord | src/main/java/swissre/parser/StringParser.java:105-120 | a line reads exactly when it splits into three fields whose rate and time parse; any other field count gives the "unable to parse" error with that line; the code is the first field |
| Parser.Body | src/main/java/swissre/parser/StringParser.java:97-101 | on success the body loop consumed at least one token and counted every one |
| Parser.RecordLineRoundTrip | src/main/java/swissre/parser/StringParser.java:105-119 | a line written as code, rate and time each followed by a pipe reads back as the observation of those fields, or as the first library failure |
| Parser.MarkerIsNoRecord | src/main/java/swissre/parser/StringParser.java:106-111 | a marker line in the body splits into one field and is rejected as unparsable |
| Parser.ParseRecordLine | src/main/java/swissre/parser/StringParser.java:105-120 | the line counter affects only the error message, never whether or what a line reads |
| Parser.ScanBlanks | src/main/java/swissre/parser/StringParser.java:128-131 | blank tokens ahead of the next line are skipped and each is counted |
| Parser.SkipToFirst | src/main/java/swissre/parser/StringParser.java:93-96 | the skip ends just after the first line equal to the literal, with every line before it counted |
| Parser.SkipToMissing | src/main/java/swissre/parser/StringParser.java:93-95 | without such a line the skip runs out with `Unexpected end of file` |
| Parser.BodyPrefix | src/main/java/swissre/parser/StringParser.java:97-101 | good record lines ahead of the rest are each recorded once, in order, before whatever the rest does |
| Parser.OpeningRead | src/main/java/swissre/parser/StringParser.java:91-96 | `START-OF-FILE`, any header lines, then `START-OF-EXCHANGE-RATES`: the body starts after them with the counter at their number |
| Parser.RatesPrefix | src/main/java/swissre/parser/StringParser.java:97-103 | the records of good lines come first in the outcome of the rates section, whether it succeeds or fails |
| Parser.RatesEnd | src/main/java/swissre/parser/StringParser.java:97-103 | `END-OF-EXCHANGE-RATES` then `END-OF-FILE` ends the file with nothing more recorded |
| Parser.RatesBadLine | src/main/java/swissre/parser/StringParser.java:97-111 | a line that does not read stops the loop with its own error and its counter value |
| Parser.RatesRunOut | src/main/java/swissre/parser/StringParser.java:126-134 | tokens running out in the body give `Unexpected end of file` |
| Parser.RatesNoTrailer | src/main/java/swissre/parser/StringParser.java:102 | nothing after `END-OF-EXCHANGE-RATES` gives `Unexpected end of file` |
| Parser.RatesWrongTrailer | src/main/java/swissre/parser/StringParser.java:138-145 | another line after `END-OF-EXCHANGE-RATES` gives the "Expected 'END-OF-FILE'" error with its line number |
| Parser.WellFormedFile | src/main/java/swissre/parser/StringParser.java:90-103 | a well-formed file records each body line exactly once, in file order, whatever its header lines hold |
| Parser.MalformedLine | src/main/java/swissre/parser/StringParser.java:98-100 | at a bad body line, the records before it stay and the line's error escapes |
| Parser.MalformedFieldCount | src/main/java/swissre/parser/StringParser.java:106-111 | a body line with other than three fields fails with "unable to parse" on its line number, an InvalidExchangeRateFileException |
| Parser.BadRateEscapes | src/main/java/swissre/parser/StringParser.java:115-117 | an unparsable rate escapes as NumberFormatException, not as an InvalidExchangeRateFileException |
| Parser.RatesNeverEnd | src/main/java/swissre/parser/StringParser.java:97-101 | a body without `END-OF-EXCHANGE-RATES` ends with `Unexpected end of file`, all its records kept |
| Parser.MissingEndOfFile | src/main/java/swissre/parser/StringParser.java:102 | a file missing `END-OF-FILE` fails with `Unexpected end of file`, all its records kept |
| Parser.WrongTrailer | src/main/java/swissre/parser/StringParser.java:139-143 | a wrong line in place of `END-OF-FILE` is reported with its text and line number |
| Parser.WrongStart | src/main/java/swissre/parser/StringParser.java:91 | a first non-empty line other than `START-OF-FILE` fails at once, quoting that line, on its own line number with the blank lines before it counted |
| Parser.BlankInput | src/main/java/swissre/parser/StringParser.java:132-133 | an input of blank tokens only fails with `Unexpected end of file` |
| Parser.NoRatesSection | src/main/java/swissre/parser/StringParser.java:93-95 | without a `START-OF-EXCHANGE-RATES` line the skip runs out with `Unexpected end of file` |
| Parser.ScanCongruent | src/main/java/swissre/parser/StringParser.java:126-136 | two inputs with the same non-empty tokens scan to the same line |
| Parser.BodyCongruent | src/main/java/swissre/parser/StringParser.java:97-101 | two bodies with the same non-empty tokens record the same observations and end the same way, up to line numbers |
| Parser.FileCongruent | src/main/java/swissre/parser/StringParser.java:90-103 | inputs with the same non-empty tokens have the same outcome up to line numbers, and the same outcome when one succeeds |
| Parser.BlankLineIgnored | src/test/java/swissre/StringParserTest.java:89-105 | inserting a blank token anywhere changes the outcome only in its line numbers |
| Parser.WindowsLineEndings | src/test/java/swissre/StringParserTest.java:107-123 | ending every line with a carriage return changes the outcome only in line numbers, and not at all when the file reads |
| Parser.CarriageReturnLineNotSkipped | src/main/java/swissre/parser/StringParser.java:128-135 | a lone carriage return is not skipped: it becomes an empty line that fails the `START-OF-FILE` check |
| Parser.StrayMarkerInBody | src/main/java/swissre/parser/LineMarker.java:9-17 | a marker line other than `END-OF-EXCHANGE-RATES` in the body is reported as unparsable on its line |
| Parser.WrongStartExample | src/test/java/swissre/StringParserTest.java:59-65 | `invalid value` fails with the START-OF-FILE error on line 1, and on line 2 after a blank line |
| Parser.MissingEndOfExchangeRatesExample | src/test/java/swissre/StringParserTest.java:164-174 | the test file fails on `END-OF-FILE` as unparsable on line 5, after recording its one record |
| Parser.MissingEndOfFileExample | src/test/java/swissre/StringParserTest.java:176-186 | the test file fails with `Unexpected end of file` after recording its one record |
| Processor.NextToken | src/main/java/swissre/StringExchangeRateFileProcessor.java:68 | `next()` reads a whole line, leaving the position at that line's end |
| Processor.NextLine | src/main/java/swissre/StringExchangeRateFileProcessor.java:96-99 | `nextLine()` moves to the next line; it fails exactly when nothing is left to read |
| Processor.FindInLine | src/main/java/swissre/StringExchangeRateFileProcessor.java:134 | `findInLine` succeeds exactly when the rest of the current line contains the literal, and never leaves that line |
| Processor.FindInLineSkipsMatch | src/main/java/swissre/StringExchangeRateFileProcessor.java:134 | after a match, what is left of the line is what followed the first occurrence |
| Processor.OpenReadsWholeText | src/main/java/swissre/StringExchangeRateFileProcessor.java:37-42 | a new scanner has the whole file unread |
| Processor.NoTokenAtEndOfText | src/main/java/swissre/StringExchangeRateFileProcessor.java:138-140 | `hasNext()` is false exactly when what is unread is empty or a lone newline |
| Processor.NextTokenReadsText | src/main/java/swissre/StringExchangeRateFileProcessor.java:68 | the token `next()` returns is the unread text up to the next newline, after at most one leading newline |
| Processor.NextLineReadsText | src/main/java/swissre/StringExchangeRateFileProcessor.java:96 | `nextLine()` consumes the rest of the line and its newline |
| Processor.EnsureLine | src/main/java/swissre/StringExchangeRateFileProcessor.java:133-147 | it passes exactly when the line contains the literal; the counter rises by one either way; a mismatch quotes the counter and the next token |
| Processor.HeaderLine | src/main/java/swissre/StringExchangeRateFileProcessor.java:113-128 | one header line is counted and consumed; an invalid date is reported with that count |
| Processor.FileDate | src/main/java/swissre/StringExchangeRateFileProcessor.java:111-131 | reading the date consumes at least one counted line; an invalid date's line number is past the starting count |
| Processor.SkipLine | src/main/java/swissre/StringExchangeRateFileProcessor.java:93-102 | `nextLineIs` counts the line, reports whether it contains the rates literal, and moves to the next line |
| Processor.SkipToRates | src/main/java/swissre/StringExchangeRateFileProcessor.java:55-57 | the skip counts at least one line and fails only with NoSuchElementException |
| Processor.RecordFields | src/main/java/swissre/StringExchangeRateFileProcessor.java:69-88 | a record has the first field as code and the parsed second and third fields as rate and time; its failures are never InvalidExchangeRateFileException |
| Processor.ReadRecord | src/main/java/swissre/StringExchangeRateFileProcessor.java:67-91 | a read record moves the counter on by one |
| Processor.ReadRecords | src/main/java/swissre/StringExchangeRateFileProcessor.java:59-61 | n reads give n observations, or fewer recorded and a runtime error |
| Processor.ReceiveFile | src/main/java/swissre/StringExchangeRateFileProcessor.java:49-65 | success records exactly three observations; a failure after all three is NoSuchElementException; a failure after any record is not an InvalidExchangeRateFileException |
| Processor.ReceiveLines | src/main/java/swissre/StringExchangeRateFileProcessor.java:50-62 | the same bounds on the file's lines |
| Processor.AfterStart | src/main/java/swissre/StringExchangeRateFileProcessor.java:52-62 | the same bounds from the header on |
| Processor.AfterDate | src/main/java/swissre/StringExchangeRateFileProcessor.java:54-62 | the same bounds from START-OF-FIELD-LIST on, with the header date returned unchanged |
| Processor.FromRates | src/main/java/swissre/StringExchangeRateFileProcessor.java:59-62 | the same bounds for the three records and the final token |
| Processor.EnsureFound | src/main/java/swissre/StringExchangeRateFileProcessor.java:133-146 | a line holding the literal anywhere is accepted; the position moves to the next line |
| Processor.EnsureMissing | src/main/java/swissre/StringExchangeRateFileProcessor.java:134-142 | a non-blank line without the literal is reported with the counter and its own text |
| Processor.OtherKeyStep | src/main/java/swissre/StringExchangeRateFileProcessor.java:126-128 | a header line with another key is counted and passed over without ending the loop |
| Processor.OtherKeysSkipped | src/main/java/swissre/StringExchangeRateFileProcessor.java:113-129 | a run of such lines is passed over, each counted |
| Processor.DateLineMatches | src/main/java/swissre/StringExchangeRateFileProcessor.java:112-113 | `DATE=v` matches the header pattern for every value drawn from `[\w ]` |
| Processor.DateLineRead | src/main/java/swissre/StringExchangeRateFileProcessor.java:119-125 | a DATE line ends the header: a parsable value gives the date, an unparsable one the invalid-date error on that line's count |
| Processor.EmptyDateValue | src/main/java/swissre/StringExchangeRateFileProcessor.java:116-121 | `DATE=` splits into one field, so reading the value throws ArrayIndexOutOfBoundsException |
| Processor.NoHeaderLine | src/main/java/swissre/StringExchangeRateFileProcessor.java:113-130 | a line that is no `key=value` match ends the header with "Date expected in header but not found" |
| Processor.ValueOutsideClass | src/main/java/swissre/StringExchangeRateFileProcessor.java:112-113 | a value with a character outside `[\w ]` does not match |
| Processor.DashedDateIsMissing | src/main/java/swissre/StringExchangeRateFileProcessor.java:112-130 | `DATE=2018-10-15` is reported as a missing date, not an invalid one |
| Processor.BlankBeforeHeaderLine | src/main/java/swissre/StringExchangeRateFileProcessor.java:113-116 | a blank line before a header line makes `findInLine` miss, and splitting the null match throws NullPointerException |
| Processor.SkipPast | src/main/java/swissre/StringExchangeRateFileProcessor.java:55-57 | lines without the rates literal are passed over unread |
| Processor.SkipFound | src/main/java/swissre/StringExchangeRateFileProcessor.java:93-97 | the first line with the literal ends the skip; the records start on the next line |
| Processor.SkipMissing | src/main/java/swissre/StringExchangeRateFileProcessor.java:93-102 | without a line holding the literal, the skip fails with NoSuchElementException |
| Processor.RecordAfterToken | src/main/java/swissre/StringExchangeRateFileProcessor.java:67-91 | from the end of a line, `next()` reads the following line as one record |
| Processor.RecordsAfterLine | src/main/java/swissre/StringExchangeRateFileProcessor.java:59-61 | consecutive good record lines are read one per line, in file order |
| Processor.RecordsFromLine | src/main/java/swissre/StringExchangeRateFileProcessor.java:59-61 | the same from the start of the first record line |
| Processor.ExtraFieldsIgnored | src/main/java/swissre/StringExchangeRateFileProcessor.java:69-71 | fields beyond the third are ignored |
| Processor.ThreeFieldRecord | src/main/java/swissre/StringExchangeRateFileProcessor.java:69-90 | three pipe-separated fields, with or without a trailing pipe, read as those fields |
| Processor.TokenAfterLine | src/main/java/swissre/StringExchangeRateFileProcessor.java:62 | the final `next()` finds a token exactly when a non-empty line follows |
| Processor.FromRatesOnRecords | src/main/java/swissre/StringExchangeRateFileProcessor.java:59-62 | after the records the call completes exactly when one more token follows |
| Processor.RatesStage | src/main/java/swissre/StringExchangeRateFileProcessor.java:59-62 | with three good record lines after the literal, the call completes exactly when a token follows them, otherwise it fails with all three recorded |
| Processor.StartStage | src/main/java/swissre/StringExchangeRateFileProcessor.java:50-51 | START-OF-FILE on the first line: the rest starts on the next line, counted as line one |
| Processor.WrongStart | src/main/java/swissre/StringExchangeRateFileProcessor.java:133-142 | a first line without `START-OF-FILE` fails on line 1, quoting the line |
| Processor.HeaderStage | src/main/java/swissre/StringExchangeRateFileProcessor.java:111-129 | other-key lines then a parsable DATE line: the file date is that value's and the next step starts on the line after it |
| Processor.FieldListStage | src/main/java/swissre/StringExchangeRateFileProcessor.java:54-57 | START-OF-FIELD-LIST, any lines without the rates literal, then the literal: the records start after the literal |
| Processor.WellFormedFile | src/main/java/swissre/StringExchangeRateFileProcessor.java:49-65 | a well-formed file gives its header date and its three records in file order exactly when a token follows them |
| Processor.MissingDateFile | src/main/java/swissre/StringExchangeRateFileProcessor.java:113-130 | a header that ends before any DATE line fails with "Date expected in header but not found" |
| Processor.InvalidDateFile | src/main/java/swissre/StringExchangeRateFileProcessor.java:117-124 | an unparsable DATE is reported on 1 plus the number of header lines read |
| Processor.FieldListAfterDate | src/main/java/swissre/StringExchangeRateFileProcessor.java:52-54 | any line after DATE other than START-OF-FIELD-LIST, a further `key=value` included, is rejected |
| ProcessorExamples.InvalidFirstLine | src/test/java/swissre/StringExchangeRateFileProcessorTest.java:39-45 | `invalid value` fails with the START-OF-FILE error on line 1 |
| ProcessorExamples.HeaderWithoutDate | src/test/java/swissre/StringExchangeRateFileProcessorTest.java:47-53 | a header without DATE fails with "Date expected in header but not found" |
| ProcessorExamples.InvalidDateOnLineTwo | src/test/java/swissre/StringExchangeRateFileProcessorTest.java:55-61 | an invalid DATE right after START-OF-FILE is reported on line 2 |
| ProcessorExamples.InvalidDateOnLineThree | src/test/java/swissre/StringExchangeRateFileProcessorTest.java:63-69 | after one other key it is reported on line 3 |
| ProcessorExamples.ReceiveTestFile | src/test/java/swissre/StringExchangeRateFileProcessorTest.java:71-102 | the test file gives date 2018-10-15 and the CHF, GBP and EUR observations, in that order |
| Rates.Percentage | src/main/java/swissre/persistence/SimpleDataStore.java:70-85 | the change relative to the smaller rate is non-negative for positive rates and zero for equal rates; a zero smaller rate is excluded because the division throws |
| Rates.SmallerIsMinimum | src/main/java/swissre/persistence/SimpleDataStore.java:73-79 | the smaller rate is the minimum and the bigger the maximum of the two, whichever is new |
| Rates.PercentageSymmetric | src/main/java/swissre/persistence/SimpleDataStore.java:70-83 | the percentage does not depend on which rate is the new one |
| Rates.PercentageThreshold | src/main/java/swissre/persistence/SimpleDataStore.java:63-68 | a pair is dramatic (at least 20) exactly when the bigger rate is at least 6/5 of the smaller |
| Rates.PercentageExamples | src/main/java/swissre/persistence/SimpleDataStore.java:70-85 | 1.0 and 1.2 differ by exactly 20%, the case of the data-store test; 1.0 and 1.3 by 30% |
| Rates.PercentageScaleInvariant | src/main/java/swissre/persistence/SimpleDataStore.java:70-85 | the percentage is relative: multiplying both rates by the same positive factor changes neither it nor which rate is smaller |
| Rates.DecSubtract | src/main/java/swissre/persistence/SimpleDataStore.java:81 | `subtract` is exact, at the larger of the two scales |
| Rates.Align | src/main/java/swissre/persistence/SimpleDataStore.java:81 | writing a number at a finer scale, as `subtract` does with the coarser operand, keeps its value |
| Rates.DecAbs | src/main/java/swissre/persistence/SimpleDataStore.java:81 | `abs` keeps the scale and gives the absolute value |
| Rates.DivideHalfUpBound | src/main/java/swissre/persistence/SimpleDataStore.java:82 | the rounded quotient lies above the exact quotient minus half a unit of the dividend's scale, and at most half a unit above it |
| Rates.DivideHalfUpAtLeast | src/main/java/swissre/persistence/SimpleDataStore.java:82 | the rounded quotient never falls below a multiple of the scale's unit that the exact quotient reaches |
| Rates.TimesHundred | src/main/java/swissre/persistence/SimpleDataStore.java:83 | multiplying by `valueOf(100.0)` is exact and makes the scale one finer |
| Rates.PercentageAsWritten | src/main/java/swissre/persistence/SimpleDataStore.java:81-84 | the BigDecimal computation as written keeps one digit more than the finer operand's scale |
| Rates.PercentageAsWrittenBound | src/main/java/swissre/persistence/SimpleDataStore.java:81-84 | the percentage as written differs from the exact one by at most 50 units of the finer rate's scale, less than that below |
| Rates.PercentageAsWrittenKeepsFlags | src/main/java/swissre/persistence/SimpleDataStore.java:63-84 | when the rates carry at least one decimal, every pair at 20% or more exactly is at 20% or more as written |
| Rates.RoundingFlagsEighteenPercent | src/main/java/swissre/persistence/SimpleDataStore.java:82 | for 5.0 and 5.9 the code computes 20.0 and flags the pair, although the change is 18% |
| Rates.LargeRatesLoseTheChange | src/main/java/swissre/persistence/SimpleDataStore.java:74-84 | for 2.0E7 and 1.0E7 the code computes 0.0, although the change is 100% |
| Store.NewStore | src/main/java/swissre/persistence/SimpleDataStore.java:30-40 | a new store has no observations, every currency's history is empty, and there are no flags |
| Store.Previous | src/main/java/swissre/persistence/SimpleDataStore.java:49-51 | the predecessor found is in the history and strictly earlier |
| Store.Next | src/main/java/swissre/persistence/SimpleDataStore.java:53-55 | the successor found is in the history and strictly later |
| Store.PreviousIsPredecessor | src/main/java/swissre/persistence/SimpleDataStore.java:87-99 | none is found exactly when nothing is earlier; otherwise it is the latest earlier observation, the first-inserted among ties |
| Store.NextIsSuccessor | src/main/java/swissre/persistence/SimpleDataStore.java:87-103 | none is found exactly when nothing is later; otherwise it is the earliest later observation, the last-inserted among ties |
| Store.PredecessorUnique | src/main/java/swissre/persistence/SimpleDataStore.java:87-95 | at most one position is the predecessor |
| Store.SuccessorUnique | src/main/java/swissre/persistence/SimpleDataStore.java:87-95 | at most one position is the successor |
| Store.FlagIfDramatic | src/main/java/swissre/persistence/SimpleDataStore.java:63-68 | it fails exactly when the neighbour's smaller rate is zero; otherwise it adds at most one flag, exactly when the exact percentage is at least 20, and none without a neighbour |
| Store.Record | src/main/java/swissre/persistence/SimpleDataStore.java:43-61 | the observation is appended to its currency's history and no other history changes; earlier flags are kept in place and at most two are added |
| Store.RecordAppendsNeighbourFlags | src/main/java/swissre/persistence/SimpleDataStore.java:57-60 | the flags added are the predecessor's pair, then the successor's |
| Store.FirstObservationNotFlagged | src/main/java/swissre/persistence/SimpleDataStore.java:45-55 | the first observation of a currency adds no flag |
| Store.SameTimestampNotCompared | src/main/java/swissre/persistence/SimpleDataStore.java:97-103 | when every stored observation of the currency shares the new one's timestamp, no neighbour exists and no flag is added |
| Store.RecordSucceedsOnPositiveRates | src/main/java/swissre/persistence/SimpleDataStore.java:82 | with positive rates the division never fails |
| Store.RecordAddsToObservations | src/main/java/swissre/persistence/SimpleDataStore.java:36-40 | after `record` the set of all observations is the old set plus the new one |
| Store.NewStoreValid | src/main/java/swissre/persistence/SimpleDataStore.java:30-33 | a new store has every history keyed by its currency and every flag sound |
| Store.RecordPreservesValid | src/main/java/swissre/persistence/SimpleDataStore.java:43-68 | `record` keeps each history under its own currency, and every flag pairs two same-currency observations at least 20% apart in time order |
| Store.RecordOrderIrrelevant | src/main/java/swissre/persistence/SimpleDataStore.java:57-59 | two observations at distinct times recorded into an empty history give the same flags in either order: one exactly when they differ by 20% |
| Store.RecordBetweenFlagsBothSides | src/main/java/swissre/persistence/SimpleDataStore.java:49-59 | an observation strictly between two stored ones, each at least 20% away, gets two flags: the earlier pair, then the later pair, each in time order |
| Store.TwentyPercentExample | src/test/java/swissre/SimpleDataStoreTest.java:43-53 | 1.0 yesterday then 1.2 today gives exactly one flag, at 20%, ordered yesterday then today |
| Store.ReverseOrderExample | src/main/java/swissre/persistence/SimpleDataStore.java:57-58 | the same pair recorded in reverse order gives the same flag |
| Store.DuplicateRecordedOnce | src/test/java/swissre/SimpleDataStoreTest.java:35-41 | recording the same observation twice leaves one observation in the set and adds no flag |
| Store.RecordAll | src/main/java/swissre/parser/StringParser.java:98-99 | recording a sequence never removes a flag, even when it stops on a division by zero |
| Store.OfCurrency | src/main/java/swissre/persistence/SimpleDataStore.java:48 | it keeps exactly the observations of that currency |
| Store.RecordAllAppends | src/main/java/swissre/persistence/SimpleDataStore.java:60 | each currency's history grows by that currency's observations, in the order given |
| Store.RecordAllObservations | src/main/java/swissre/persistence/SimpleDataStore.java:36-40 | the set of all observations grows by exactly the observations recorded |
| Store.RecordAllSucceedsOnPositiveRates | src/main/java/swissre/persistence/SimpleDataStore.java:70-83 | with positive rates a whole sequence records without failure |
| Averages.RatesWithKeyNonEmpty | src/main/java/swissre/persistence/SimpleDataStore.java:113 | a group has at least one rate exactly when its key occurs |
| Averages.GroupMeans | src/main/java/swissre/persistence/SimpleDataStore.java:111-120 | there is one key per group that occurs, and no other |
| Averages.GroupAverages | src/main/java/swissre/persistence/SimpleDataStore.java:113 | the one-pass sum-and-count loop computes each group's mean |
| Averages.AccumulatedMeans | src/main/java/swissre/persistence/SimpleDataStore.java:113 | once all are summed, every count is positive and sum divided by count is the group mean |
| Averages.MeanBounds | src/main/java/swissre/persistence/SimpleDataStore.java:113 | the mean of values within bounds stays within them |
| Averages.GroupMeanBounded | src/main/java/swissre/persistence/SimpleDataStore.java:111-120 | each group's mean lies between bounds that every stored rate meets |
| Averages.MonthName | src/main/java/swissre/persistence/SimpleDataStore.java:124 | the month's enum name is non-empty and holds no underscore |
| Averages.MonthNameInjective | src/main/java/swissre/persistence/SimpleDataStore.java:124 | distinct months have distinct names |
| Averages.MonthKeyIdentifiesMonth | src/main/java/swissre/persistence/SimpleDataStore.java:122-126 | two observations share a month key exactly when they share year and month |
| Averages.AveragesByYear | src/main/java/swissre/persistence/SimpleDataStore.java:117-120 | an unrecorded currency is the null-pointer failure; a recorded one gets the mean rate per year of its history, duplicates counted |
| Averages.AveragesByMonth | src/main/java/swissre/persistence/SimpleDataStore.java:111-114 | the same per `YEAR_MONTHNAME` |
| Averages.MonthKeyExample | src/main/java/swissre/persistence/SimpleDataStore.java:122-125 | January and February 2018 are keyed `2018_JANUARY` and `2018_FEBRUARY` |
| Averages.AveragesExample | src/main/java/swissre/persistence/DataStore.java:34-44 | three January rates and one February rate give the two monthly means, and their overall mean for the year |
| Receiver.ReceiveFile | src/main/java/swissre/parser/StringParser.java:97-101 | flags are never removed; nothing escapes only when the file parses; a parse error that escapes is the parser's, after what it read |
| Receiver.ReceiveFileRecordsWhatWasRead | src/main/java/swissre/parser/StringParser.java:98-100 | with positive rates every history grows by exactly what was read before the parser stopped, in file order, and only the parse error escapes |
| Receiver.ReceiveWellFormedFile | src/test/java/swissre/StringParserTest.java:126-161 | a well-formed file adds each currency's records to its history, in order, and nothing escapes |
| Receiver.ReceiveMalformedLine | src/main/java/swissre/parser/StringParser.java:97-111 | at a bad body line the earlier records stay in the store, later ones are not recorded, and the line's error escapes |

## Left out

- Scanner internals are left out: regular-expression matching in general, buffering, and the delimiter rules beyond `\n`.
  - The live parser sees the `\n`-split tokens.
  - The earliest processor sees the file's lines, with `next`, `nextLine`, `hasNext`, `hasNext(Pattern)` and `findInLine` modelled on them.
- The library parsers `Double.parseDouble`, `LocalDateTime.parse` and `LocalDate.parse` are parameters. Their formats are not modelled.
- Doubles and BigDecimal are exact reals.
  - Only the rounding described under Findings is modelled digit by digit.
  - The double conversion of the percentage is not modelled.
  - The bitwise `Double.equals` is not modelled: it makes NaN equal to itself and 0.0 differ from -0.0.
  - `averagingDouble`'s compensated summation is not modelled.
- Errors.Message: its contract only promises a non-empty text. The exact texts are stated by `WrongStartMessage`, `UnparsableMessage` and `InvalidDateMessages`, and `MessageLineReadsBack` states that the line number can be read back from every message that has one.
- `MessageFormat` groups line numbers of 1000 or more by locale. That grouping is not modelled; line numbers print as plain digits.
- Hash codes are not modelled. Equality is Dafny's structural equality, which the equality lemmas state.
- The `toString` texts of `ExchangeRateChange` and `FlaggedChange` are not modelled.
- Console output is left out: the earliest processor's date and final-token prints and its warning for other header keys.
- The command-line entry `receive(Scanner)` and `App` are not part of this model.
- Thread safety and concurrency: the classes are documented as not thread safe, and the model is sequential.
- The earlier StringParser compares against `ExchangeRateFileToken`. That enum is not part of this model; its literals are assumed to be the marker literals.
- The interfaces `DataStore`, `ResultsCollector`, `Parser` and `ExchangeRateFileProcessor` have no behaviour of their own.
- The earlier `ExchangeRateChange` has a single constructor. It is `Model.NewObs`; the model does not tell the two revisions apart.
- Processor.RecordsFromLine requires the record lines not to start on line 0. The rates literal always comes before them, so this is never a restriction in a run.
- Store.FlagIfDramatic: it decides the threshold with the exact percentage, the corrected rule of the first Findings row, not the source's rounded ratio. So 5.0 and 5.9 are not flagged, where the source flags them at 20.0. The percentage stored for 3.0 and 3.7 is 23.33…, where the source stores 20.0.
- Store.RecordAppendsNeighbourFlags: the flags it names carry the exact percentage and exist exactly when that is at least 20, as in `Store.FlagIfDramatic`.
- Store.RecordOrderIrrelevant: the flag it names exists exactly when the exact percentage is at least 20, as in `Store.FlagIfDramatic`.
- Store.RecordBetweenFlagsBothSides: its requires and its two flags use the exact percentage, as in `Store.FlagIfDramatic`.
- Rates.PercentageAsWritten: its own contract states only the result's scale. How far it can be from the exact percentage is stated by `PercentageAsWrittenBound` and `PercentageAsWrittenKeepsFlags`. It takes the BigDecimal forms of the rates as given: the rendering of a double through `Double.toString` is not modelled, and neither is the final `doubleValue`.
- Processor.FindInLine: a line ends only at `\n`. Java's Scanner also ends the `findInLine` horizon at `\r`, `\u2028`, `\u2029` and `\u0085`, with `\r\n` as one separator. So the model accepts a file starting `\rSTART-OF-FILE\n`, and Java does not.
- Processor.NextLine: it also ends lines only at `\n`, where Java's `nextLine` also stops at the separators listed for `Processor.FindInLine`.
- Averages.AveragesByYear and Averages.AveragesByMonth do not require the currency to be present. An absent currency gives `None`, which stands for the null-pointer failure.

## Findings

| source | as written | input that shows it | evidently intended | confidence | as-written member | corrected member |
|---|---|---|---|---|---|---|
| src/main/java/swissre/persistence/SimpleDataStore.java:82 | `absoluteChange.divide(smallerRate, ROUND_HALF_UP)` rounds the ratio to the scale of the difference before multiplying by 100 (the same line is at SimpleDataStore.java:75) | rates 5.0 and 5.9: the ratio 0.18 is rounded to 0.2, so the percentage is 20.0 and the pair is flagged | the exact relative change, 18%, which stays below the 20% threshold | not executed | Rates.RoundingFlagsEighteenPercent | Rates.Percentage |
| src/main/java/swissre/persistence/SimpleDataStore.java:74-82 | `BigDecimal.valueOf` writes a rate of ten million or more in E notation, so its scale is zero or negative, and the division rounds the ratio to whole numbers or coarser | rates 2.0E7 and 1.0E7 (20 and 10 at scale -6): the ratio 1 is rounded to a multiple of a million, 0, so a doubling is reported as 0.0 and not flagged | the exact relative change, 100%, the same as for 2.0 and 1.0 | not executed | Rates.LargeRatesLoseTheChange | Rates.PercentageScaleInvariant |
