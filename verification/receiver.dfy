/**
 * `receiveFile` with the store behind it. The parser hands each
 * observation to `record` as soon as its line is read, and nothing it reads
 * depends on the store, so the run is the parse of the whole input with the
 * observations read before it stopped fed to `record` in order. Whatever
 * stops first, a parse error or a division by zero inside `record`,
 * escapes, and the store keeps everything recorded before it.
 */
module Receiver {
  import opened Wrappers
  import opened Strings
  import opened Markers
  import opened Model
  import opened Errors
  import opened Parser
  import opened Store

  /** What escapes from `receiveFile`. */
  datatype Escape = Parse(error: ParseError) | DivisionByZeroInRecord

  /** The store after the call, and what escaped from it, if anything. */
  datatype Received = Received(store: Store, escaped: Option<Escape>)

  /** The observations the parser reads before it stops, in order. */
  function ReadBeforeStop(r: Result<seq<Obs>, Aborted>): seq<Obs>
  {
    match r
    case Success(obs) => obs
    case Failure(a) => a.recorded
  }

  function ReceiveFile(s: Store, tokens: seq<string>, lex: Lexers): (r: Received)
    ensures s.flagged <= r.store.flagged
    ensures r.escaped.None? ==> ParseFile(tokens, lex).Success?
    ensures r.escaped.Some? && r.escaped.value.Parse? ==> ParseFile(tokens, lex) == Failure(Aborted(ReadBeforeStop(ParseFile(tokens, lex)), r.escaped.value.error))
  {
    var parsed := ParseFile(tokens, lex);
    match RecordAll(s, ReadBeforeStop(parsed))
    case Failure(DivisionByZero(partial)) => Received(partial, Some(DivisionByZeroInRecord))
    case Success(s1) =>
      match parsed
      case Success(_) => Received(s1, None)
      case Failure(Aborted(_, e)) => Received(s1, Some(Parse(e)))
  }

  /**
   * With positive rates nothing divides by zero: every currency's history
   * grows by exactly the observations read, in file order, and only the
   * parse error, if any, escapes.
   */
  lemma ReceiveFileRecordsWhatWasRead(s: Store, tokens: seq<string>, lex: Lexers, c: Code)
    requires PositiveRates(s)
    requires forall i :: 0 <= i < |ReadBeforeStop(ParseFile(tokens, lex))| ==> ReadBeforeStop(ParseFile(tokens, lex))[i].rate > 0.0
    ensures History(ReceiveFile(s, tokens, lex).store, c) == History(s, c) + OfCurrency(ReadBeforeStop(ParseFile(tokens, lex)), c)
    ensures ReceiveFile(s, tokens, lex).escaped ==
      if ParseFile(tokens, lex).Success? then None else Some(Parse(ParseFile(tokens, lex).error.error))
  {
    var obs := ReadBeforeStop(ParseFile(tokens, lex));
    RecordAllSucceedsOnPositiveRates(s, obs);
    RecordAllAppends(s, obs, c);
  }

  /**
   * A well-formed file with positive rates: each currency's history grows
   * by that currency's records, in file order, and nothing escapes.
   */
  lemma ReceiveWellFormedFile(s: Store, h: seq<string>, b: seq<string>, y: seq<string>, lex: Lexers, c: Code)
    requires PositiveRates(s)
    requires Header(h) && RecordLines(b, lex)
    requires |y| >= 2 && y[0] != "" && StripCR(y[0]) == AsString(EndOfExchangeRates)
    requires y[1] != "" && StripCR(y[1]) == AsString(EndOfFile)
    requires forall i :: 0 <= i < |b| ==> RecordsOf(b, lex)[i].rate > 0.0
    ensures ReceiveFile(s, Opening(h) + b + y, lex).escaped == None
    ensures History(ReceiveFile(s, Opening(h) + b + y, lex).store, c) == History(s, c) + OfCurrency(RecordsOf(b, lex), c)
  {
    WellFormedFile(h, b, y, lex);
    ReceiveFileRecordsWhatWasRead(s, Opening(h) + b + y, lex, c);
  }

  /**
   * A malformed record line: the records before it stay in the store,
   * nothing after it is recorded, and the parse error escapes.
   */
  lemma ReceiveMalformedLine(s: Store, h: seq<string>, b: seq<string>, y: seq<string>, lex: Lexers, c: Code)
    requires PositiveRates(s)
    requires Header(h) && RecordLines(b, lex)
    requires |y| >= 1 && y[0] != "" && StripCR(y[0]) != AsString(EndOfExchangeRates)
    requires ParseRecord(StripCR(y[0]), |h| + |b| + 3, lex).Failure?
    requires forall i :: 0 <= i < |b| ==> RecordsOf(b, lex)[i].rate > 0.0
    ensures ReceiveFile(s, Opening(h) + b + y, lex).escaped == Some(Parse(ParseRecord(StripCR(y[0]), |h| + |b| + 3, lex).error))
    ensures History(ReceiveFile(s, Opening(h) + b + y, lex).store, c) == History(s, c) + OfCurrency(RecordsOf(b, lex), c)
  {
    MalformedLine(h, b, y, lex);
    ReceiveFileRecordsWhatWasRead(s, Opening(h) + b + y, lex, c);
  }
}
