/**
 * What can stop the processing of a file: the InvalidExchangeRateFileException
 * cases, each with the message the source builds, and the runtime exceptions
 * that escape from library calls instead.
 */
module Errors {
  import opened Strings
  import opened Markers

  datatype ParseError =
    | UnexpectedEndOfFile
    | UnexpectedLine(expected: Marker, line: nat, found: string)
    | UnparsableRecord(text: string, line: nat)
    | InvalidDate(value: string, line: nat)
    | MissingDate
      // NumberFormatException from Double.parseDouble
    | NumberFormat(text: string)
      // DateTimeParseException from LocalDateTime.parse
    | DateTimeParse(text: string)
      // NoSuchElementException from the scanner
    | NoSuchElement
      // ArrayIndexOutOfBoundsException from indexing a split line
    | IndexOutOfBounds(index: nat)
      // NullPointerException from splitting a header match that was not found
    | NullPointer

  /** The errors raised as InvalidExchangeRateFileException; the rest are unchecked exceptions passing through. */
  predicate IsInvalidFile(e: ParseError)
  {
    e.UnexpectedEndOfFile? || e.UnexpectedLine? || e.UnparsableRecord? || e.InvalidDate? || e.MissingDate?
  }

  /** The exception's message. Line numbers are written as plain decimal digits. */
  function Message(e: ParseError): (s: string)
    requires IsInvalidFile(e)
    ensures |s| > 0
  {
    match e
    case UnexpectedEndOfFile => "Unexpected end of file"
    case UnexpectedLine(m, n, f) =>
      "Expected '" + LineMarkerToString(m) + "' on line " + NatToString(n) + ", found '" + f + "'"
    case UnparsableRecord(t, n) =>
      "Unexpected exchange rate format found unable to parse '" + t + "' on line " + NatToString(n)
    case InvalidDate(v, n) =>
      "DATE '" + v + "' is not in the format YYYYMMDD on line " + NatToString(n)
    case MissingDate => "Date expected in header but not found"
  }

  /** The number a text ends with, read from its trailing digits (0 when there are none). */
  function LineOf(s: string): nat
  {
    DigitsValue(TrailingDigits(s))
  }

  /**
   * The line number reads back from the message: it is the number the
   * text ends with, once the quoted line an UnexpectedLine message closes
   * with is taken off.
   */
  lemma MessageLineReadsBack(e: ParseError)
    requires e.UnexpectedLine? || e.UnparsableRecord? || e.InvalidDate?
    ensures var s := Message(e);
      var tail := if e.UnexpectedLine? then ", found '" + e.found + "'" else "";
      |tail| <= |s| && s[|s| - |tail|..] == tail && LineOf(s[..|s| - |tail|]) == e.line
  {
    var s := Message(e);
    var digits := NatToString(e.line);
    DigitsValueOfNatToString(e.line);
    match e
    case UnexpectedLine(m, n, f) =>
      var head := "Expected '" + LineMarkerToString(m) + "' on line ";
      var tail := ", found '" + f + "'";
      assert s == (head + digits) + tail;
      assert s[..|s| - |tail|] == head + digits;
      TrailingDigitsAfter(head, digits);
    case UnparsableRecord(t, n) =>
      var head := "Unexpected exchange rate format found unable to parse '" + t + "' on line ";
      assert s == head + digits;
      assert s[..|s|] == s;
      TrailingDigitsAfter(head, digits);
    case InvalidDate(v, n) =>
      var head := "DATE '" + v + "' is not in the format YYYYMMDD on line ";
      assert s == head + digits;
      assert s[..|s|] == s;
      TrailingDigitsAfter(head, digits);
  }

  /** The same error with its line number, if it has one, replaced by 0. */
  function EraseLine(e: ParseError): (r: ParseError)
    ensures IsInvalidFile(r) <==> IsInvalidFile(e)
    ensures r.UnexpectedLine? ==> r.line == 0
  {
    match e
    case UnexpectedLine(m, _, f) => UnexpectedLine(m, 0, f)
    case UnparsableRecord(t, _) => UnparsableRecord(t, 0)
    case InvalidDate(v, _) => InvalidDate(v, 0)
    case _ => e
  }

  // The examples below spell each expected message as its literal pieces,
  // in the order the message concatenates them.

  /** The message of a file whose first line is "invalid value". */
  lemma WrongStartMessage()
    ensures Message(UnexpectedLine(StartOfFile, 1, "invalid value"))
      == "Expected '" + "START-OF-FILE" + "' on line " + "1" + ", found '" + "invalid value" + "'"
  {
    assert NatToString(1) == "1";
  }

  /** The message when END-OF-FILE turns up where a record or END-OF-EXCHANGE-RATES is due, on line 5. */
  lemma UnparsableMessage()
    ensures Message(UnparsableRecord("END-OF-FILE", 5))
      == "Unexpected exchange rate format found unable to parse '" + "END-OF-FILE" + "' on line " + "5"
  {
    assert NatToString(5) == "5";
  }

  /** The messages of an invalid header date on lines 2 and 3. */
  lemma InvalidDateMessages()
    ensures Message(InvalidDate("invalid value", 2))
      == "DATE '" + "invalid value" + "' is not in the format YYYYMMDD on line " + "2"
    ensures Message(InvalidDate("invalid value", 3))
      == "DATE '" + "invalid value" + "' is not in the format YYYYMMDD on line " + "3"
  {
    assert NatToString(2) == "2";
    assert NatToString(3) == "3";
  }
}
