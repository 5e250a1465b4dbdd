/**
 * The earliest revision's StringExchangeRateFileProcessor. It reads the
 * file through one Scanner, mixing line operations (`findInLine`,
 * `nextLine`) with token operations (`hasNext`, `next`, tokens delimited by
 * a single "\n"). It demands a DATE in the header and reads exactly three
 * records, whatever follows them.
 *
 * The file is given as its lines: the text cut at every '\n'
 * (`SplitAll(file, '\n')`), so a file ending in a newline has an empty
 * last line. A scanner position always lies inside one line: `cur` is the
 * unread part of that line and `next` the index of the line after it, so
 * the unread text is `cur`, then a '\n' before each of `lines[next..]`.
 * `count` is the processor's line counter, which its steps move on by hand.
 */
module Processor {
  import opened Wrappers
  import opened Strings
  import opened Markers
  import opened Model
  import opened Errors
  import opened Parser

  datatype Scanner = Scanner(lines: seq<string>, cur: string, next: nat, count: nat)

  /** A new scanner over the lines: at the start of the first, the counter at zero. */
  function Open(lines: seq<string>): Scanner
  {
    if |lines| == 0 then Scanner(lines, "", 0, 0) else Scanner(lines, lines[0], 1, 0)
  }

  /** The scanner at the start of line `i`, the counter at `c`. */
  function StartOf(lines: seq<string>, i: nat, c: nat): Scanner
    requires i < |lines|
  {
    Scanner(lines, lines[i], i + 1, c)
  }

  /** The scanner at the end of line `i`, the counter at `c`. */
  function EndOf(lines: seq<string>, i: nat, c: nat): Scanner
  {
    Scanner(lines, "", i + 1, c)
  }

  /** The position lies within the lines, and no line holds the delimiter. */
  ghost predicate Valid(sc: Scanner)
  {
    sc.next <= |sc.lines| && '\n' !in sc.cur && forall i :: 0 <= i < |sc.lines| ==> '\n' !in sc.lines[i]
  }

  /** The text the scanner has not yet read. */
  ghost function Unread(sc: Scanner): string
    requires sc.next <= |sc.lines|
  {
    Join([sc.cur] + sc.lines[sc.next..], '\n')
  }

  // ---------------------------------------------------------------------
  // The scanner operations the processor uses

  /**
   * `next()`: skip one delimiter if the position is at one, then take the
   * text up to the following delimiter. The position is left at the end
   * of the token's line. A lone delimiter at the very end is no token.
   */
  function NextToken(sc: Scanner): (r: Option<(string, Scanner)>)
    ensures r.Some? ==> r.value.1 == sc.(cur := "") || (sc.cur == "" && sc.next < |sc.lines| && r.value.1 == EndOf(sc.lines, sc.next, sc.count))
  {
    if sc.cur != "" then Some((sc.cur, sc.(cur := "")))
    else if sc.next < |sc.lines| && !(sc.lines[sc.next] == "" && sc.next + 1 == |sc.lines|) then
      Some((sc.lines[sc.next], EndOf(sc.lines, sc.next, sc.count)))
    else None
  }

  /** `nextLine()`: move to the start of the next line; with no input left it throws. */
  function NextLine(sc: Scanner): (r: Option<Scanner>)
    ensures r.Some? ==> r.value.lines == sc.lines && r.value.count == sc.count
    ensures r.Some? ==> (sc.next < |sc.lines| && r.value.next == sc.next + 1) || (r.value.next == sc.next && sc.cur != "" && r.value.cur == "")
    ensures r.None? <==> sc.next >= |sc.lines| && sc.cur == ""
  {
    if sc.next < |sc.lines| then Some(StartOf(sc.lines, sc.next, sc.count))
    else if sc.cur != "" then Some(sc.(cur := ""))
    else None
  }

  /**
   * `findInLine` with a literal: search the unread part of the current
   * line only; on success the position moves past the first occurrence.
   */
  function FindInLine(sc: Scanner, sub: string): (r: Option<Scanner>)
    ensures r.Some? <==> Contains(sc.cur, sub)
    ensures r.Some? ==> r.value == sc.(cur := r.value.cur)
  {
    match AfterFirst(sc.cur, sub)
    case None => None
    case Some(after) => Some(sc.(cur := after))
  }

  /** `findInLine` leaves unread exactly what follows the first occurrence, on the same line. */
  lemma FindInLineSkipsMatch(sc: Scanner, sub: string)
    requires FindInLine(sc, sub).Some?
    ensures var after := FindInLine(sc, sub).value.cur;
      |after| + |sub| <= |sc.cur| && sub + after == sc.cur[|sc.cur| - |after| - |sub|..]
  {
    AfterFirstFollowsMatch(sc.cur, sub);
  }

  /** A scanner opened on the lines of a text has the whole text unread. */
  lemma OpenReadsWholeText(file: string)
    ensures Valid(Open(SplitAll(file, '\n')))
    ensures Unread(Open(SplitAll(file, '\n'))) == file
  {
    var lines := SplitAll(file, '\n');
    JoinSplitAll(file, '\n');
    assert [lines[0]] + lines[1..] == lines;
  }

  /** The unread text at the end of a line: a delimiter, then the next line and what follows it. */
  lemma UnreadAtLineEnd(sc: Scanner)
    requires sc.next < |sc.lines| && sc.cur == ""
    ensures Unread(sc) == "\n" + Unread(StartOf(sc.lines, sc.next, sc.count))
  {
    var rest := sc.lines[sc.next..];
    assert rest == [sc.lines[sc.next]] + sc.lines[sc.next + 1..];
    assert ([sc.cur] + rest)[1..] == rest;
  }

  /** The unread text is the rest of the current line, then everything after it. */
  lemma UnreadSplitsAtLine(sc: Scanner)
    requires sc.next <= |sc.lines|
    ensures Unread(sc) == sc.cur + Unread(sc.(cur := ""))
  {
    var rest := sc.lines[sc.next..];
    if |rest| > 0 {
      assert ([sc.cur] + rest)[1..] == rest;
      assert ([""] + rest)[1..] == rest;
    }
  }

  /** `next()` finds no token exactly when the unread text is empty or a lone delimiter. */
  lemma NoTokenAtEndOfText(sc: Scanner)
    requires Valid(sc)
    ensures NextToken(sc).None? <==> Unread(sc) == "" || Unread(sc) == "\n"
  {
    UnreadSplitsAtLine(sc);
    var e := sc.(cur := "");
    if sc.next < |sc.lines| {
      UnreadAtLineEnd(e);
      var s1 := StartOf(sc.lines, sc.next, sc.count);
      UnreadSplitsAtLine(s1);
      if sc.next + 1 < |sc.lines| {
        UnreadAtLineEnd(s1.(cur := ""));
      } else {
        assert sc.lines[sc.next + 1..] == [];
      }
      if sc.cur != "" {
        assert Unread(sc)[0] == sc.cur[0];
        assert sc.cur[0] != '\n';
      }
    } else {
      assert sc.lines[sc.next..] == [];
      if sc.cur != "" {
        assert sc.cur[0] != '\n';
      }
    }
  }

  /**
   * What `next()` reads is a piece of the unread text: at most one
   * delimiter, the token, and then the text it leaves unread. With lines
   * free of '\n' the token holds none either.
   */
  lemma NextTokenReadsText(sc: Scanner)
    requires Valid(sc) && NextToken(sc).Some?
    ensures '\n' !in NextToken(sc).value.0
    ensures Unread(sc) == (if sc.cur == "" then "\n" else "") + NextToken(sc).value.0 + Unread(NextToken(sc).value.1)
  {
    UnreadSplitsAtLine(sc);
    if sc.cur == "" {
      UnreadAtLineEnd(sc);
      UnreadSplitsAtLine(StartOf(sc.lines, sc.next, sc.count));
    }
  }

  /** `nextLine()` passes over the rest of the current line and the delimiter after it, if any. */
  lemma NextLineReadsText(sc: Scanner)
    requires Valid(sc) && NextLine(sc).Some?
    ensures Unread(sc) == sc.cur + (if sc.next < |sc.lines| then "\n" else "") + Unread(NextLine(sc).value)
  {
    UnreadSplitsAtLine(sc);
    if sc.next < |sc.lines| {
      UnreadAtLineEnd(sc.(cur := ""));
    } else {
      assert sc.lines[sc.next..] == [];
    }
  }

  // ---------------------------------------------------------------------
  // The steps of receiveFile

  /**
   * `ensureNextLineMatches`: the current line must contain the marker's
   * literal; then the position moves to the next line. The counter moves
   * on either way. On a mismatch the message quotes the next token, or
   * nothing when no input is left.
   */
  function EnsureLine(sc: Scanner, m: Marker): (r: Result<Scanner, ParseError>)
    ensures r.Success? ==> Contains(sc.cur, AsString(m)) && r.value.count == sc.count + 1 && r.value.lines == sc.lines
    ensures (r.Failure? && r.error.UnexpectedLine?) <==> !Contains(sc.cur, AsString(m))
    ensures r.Failure? ==> r.error == NoSuchElement || (r.error.UnexpectedLine? && r.error.expected == m && r.error.line == sc.count + 1)
  {
    match FindInLine(sc, AsString(m))
    case None =>
      var found := match NextToken(sc) case Some((token, _)) => token case None => "";
      Failure(UnexpectedLine(m, sc.count + 1, found))
    case Some(after) =>
      match NextLine(after)
      case None => Failure(NoSuchElement)
      case Some(n) => Success(n.(count := sc.count + 1))
  }

  /** What one round of `getFileDate`'s loop comes to. */
  datatype HeaderStep =
    | DateFound(date: Date, next: Scanner)
    | HeaderFails(error: ParseError)
    | OtherKeyPassed(next: Scanner)

  /**
   * One round of `getFileDate`'s loop. The next token must be a whole
   * `key=value` match, or the loop ends without a date. The match is then
   * looked for in the current line, which is consumed and counted; a DATE
   * key ends the loop with its value parsed, any other key is passed over.
   */
  function HeaderLine(sc: Scanner, lex: Lexers): (r: HeaderStep)
    ensures r.OtherKeyPassed? ==> r.next.lines == sc.lines && sc.next < |sc.lines| && r.next.next == sc.next + 1
    ensures r.OtherKeyPassed? || r.DateFound? ==> r.next.count == sc.count + 1
    ensures r.HeaderFails? && r.error.InvalidDate? ==> r.error.line == sc.count + 1
  {
    match NextToken(sc)
    case None => HeaderFails(MissingDate)
    case Some((token, _)) =>
      if MatchKeyValue(token).None? then HeaderFails(MissingDate)
      else if sc.cur == "" then
        // The token lies on the next line, beyond `findInLine`'s reach, so
        // the match is null and splitting it throws.
        HeaderFails(NullPointer)
      else
        // The match takes the whole line, and the position its end.
        // `split("=")` gives the key, then the value unless it is empty
        // (KeyValueSplit), so `pair[1]` is out of bounds for an empty value.
        var (key, value) := MatchKeyValue(token).value;
        var line := sc.count + 1;
        match NextLine(sc.(cur := ""))
        case None => HeaderFails(NoSuchElement)
        case Some(n) =>
          if key == "DATE" then
            if value == "" then HeaderFails(IndexOutOfBounds(1))
            else match lex.date(value)
              case None => HeaderFails(InvalidDate(value, line))
              case Some(d) => DateFound(d, n.(count := line))
          else OtherKeyPassed(n.(count := line))
  }

  /**
   * `getFileDate`: header lines are read until one ends the loop. The first
   * DATE key gives the file date; when the loop ends without one, the date
   * is missing.
   */
  function FileDate(sc: Scanner, lex: Lexers): (r: Result<(Date, Scanner), ParseError>)
    ensures r.Success? ==> r.value.1.count > sc.count
    ensures r.Failure? && r.error.InvalidDate? ==> r.error.line > sc.count
    decreases |sc.lines| - sc.next
  {
    match HeaderLine(sc, lex)
    case DateFound(d, next) => Success((d, next))
    case HeaderFails(e) => Failure(e)
    case OtherKeyPassed(next) => FileDate(next, lex)
  }

  /** What one round of the skip loop comes to. */
  datatype SkipStep = RatesFound(next: Scanner) | LinePassed(next: Scanner) | OutOfLines

  /**
   * `nextLineIs(START_OF_EXCHANGE_RATES)`: count the line, look for the
   * literal in it, and move to the next line either way.
   */
  function SkipLine(sc: Scanner): (r: SkipStep)
    ensures r.RatesFound? ==> Contains(sc.cur, AsString(StartOfExchangeRates)) && r.next.count == sc.count + 1
    ensures r.LinePassed? ==> !Contains(sc.cur, AsString(StartOfExchangeRates)) && r.next.count == sc.count + 1
    ensures r.LinePassed? ==> r.next.lines == sc.lines
    ensures r.LinePassed? ==> (sc.next < |sc.lines| && r.next.next == sc.next + 1) || (r.next.next == sc.next && sc.cur != "" && r.next.cur == "")
  {
    match FindInLine(sc, AsString(StartOfExchangeRates))
    case Some(after) =>
      (match NextLine(after)
       case None => OutOfLines
       case Some(n) => RatesFound(n.(count := sc.count + 1)))
    case None =>
      match NextLine(sc)
      case None => OutOfLines
      case Some(n) => LinePassed(n.(count := sc.count + 1))
  }

  /**
   * The loop `while (!nextLineIs(START_OF_EXCHANGE_RATES))`: lines are
   * passed over, unread, up to and including the first that contains the
   * literal.
   */
  function SkipToRates(sc: Scanner): (r: Result<Scanner, ParseError>)
    ensures r.Success? ==> r.value.count > sc.count
    ensures r.Failure? ==> r.error == NoSuchElement
    decreases if sc.next <= |sc.lines| then |sc.lines| - sc.next else 0, if sc.cur != "" then 1 else 0
  {
    match SkipLine(sc)
    case RatesFound(next) => Success(next)
    case OutOfLines => Failure(NoSuchElement)
    case LinePassed(next) => SkipToRates(next)
  }

  /**
   * The fields of one record line, cut at '|', in the order the source
   * reads them: `parts[0]`, then the rate from `parts[1]`, then the time
   * from `parts[2]`. Each index or parse failure escapes as it happens;
   * fields beyond the third are ignored.
   */
  function RecordFields(text: string, lex: Lexers): (r: Result<Obs, ParseError>)
    ensures r.Success? ==> |JavaSplit(text, '|')| >= 3 && r.value.code.val == JavaSplit(text, '|')[0]
    ensures r.Success? ==> Some(r.value.rate) == lex.rate(JavaSplit(text, '|')[1])
    ensures r.Success? ==> Some(r.value.time) == lex.time(JavaSplit(text, '|')[2])
    ensures r.Failure? ==> !IsInvalidFile(r.error)
  {
    var parts := JavaSplit(text, '|');
    if |parts| == 0 then Failure(IndexOutOfBounds(0))
    else if |parts| == 1 then Failure(IndexOutOfBounds(1))
    else match lex.rate(parts[1])
      case None => Failure(NumberFormat(parts[1]))
      case Some(rate) =>
        if |parts| == 2 then Failure(IndexOutOfBounds(2))
        else match lex.time(parts[2])
          case None => Failure(DateTimeParse(parts[2]))
          case Some(time) => Success(NewObs(parts[0], time, rate))
  }

  /** `getExchangeRateChange`: the next token, read as a record; the counter moves on only when it reads. */
  function ReadRecord(sc: Scanner, lex: Lexers): (r: Result<(Obs, Scanner), ParseError>)
    ensures r.Success? ==> r.value.1.count == sc.count + 1
    ensures r.Failure? ==> !IsInvalidFile(r.error)
  {
    match NextToken(sc)
    case None => Failure(NoSuchElement)
    case Some((text, n)) =>
      match RecordFields(text, lex)
      case Failure(e) => Failure(e)
      case Success(o) => Success((o, n.(count := sc.count + 1)))
  }

  /** `n` calls of `getExchangeRateChange`, each observation recorded as soon as it is read. */
  function ReadRecords(sc: Scanner, n: nat, lex: Lexers): (r: Result<(seq<Obs>, Scanner), Aborted>)
    ensures r.Success? ==> |r.value.0| == n && r.value.1.count == sc.count + n
    ensures r.Failure? ==> |r.error.recorded| < n && !IsInvalidFile(r.error.error)
    decreases n
  {
    if n == 0 then Success(([], sc))
    else match ReadRecord(sc, lex)
      case Failure(e) => Failure(Aborted([], e))
      case Success((o, next)) =>
        match ReadRecords(next, n - 1, lex)
        case Failure(Aborted(done, e)) => Failure(Aborted([o] + done, e))
        case Success((obs, last)) => Success(([o] + obs, last))
  }

  /** `receiveFile` records three observations, no more and no fewer. */
  const RecordCount: nat := 3

  /**
   * `receiveFile`: START-OF-FILE, the header date, START-OF-FIELD-LIST,
   * the skip to START-OF-EXCHANGE-RATES, three records and one more token.
   * It gives the header date with the observations, or what was recorded
   * before the first error.
   */
  function ReceiveFile(file: string, lex: Lexers): (r: Result<(Date, seq<Obs>), Aborted>)
    ensures r.Success? ==> |r.value.1| == RecordCount
    ensures r.Failure? ==> |r.error.recorded| <= RecordCount
    ensures r.Failure? && |r.error.recorded| == RecordCount ==> r.error.error == NoSuchElement
    ensures r.Failure? && |r.error.recorded| > 0 ==> !IsInvalidFile(r.error.error)
  {
    ReceiveLines(SplitAll(file, '\n'), lex)
  }

  /** The same on the file's lines. */
  function ReceiveLines(lines: seq<string>, lex: Lexers): (r: Result<(Date, seq<Obs>), Aborted>)
    ensures r.Success? ==> |r.value.1| == RecordCount
    ensures r.Failure? ==> |r.error.recorded| <= RecordCount
    ensures r.Failure? && |r.error.recorded| == RecordCount ==> r.error.error == NoSuchElement
    ensures r.Failure? && |r.error.recorded| > 0 ==> !IsInvalidFile(r.error.error)
  {
    match EnsureLine(Open(lines), StartOfFile)
    case Failure(e) => Failure(Aborted([], e))
    case Success(sc) => AfterStart(sc, lex)
  }

  /** The steps after START-OF-FILE. */
  function AfterStart(sc: Scanner, lex: Lexers): (r: Result<(Date, seq<Obs>), Aborted>)
    ensures r.Success? ==> |r.value.1| == RecordCount
    ensures r.Failure? ==> |r.error.recorded| <= RecordCount
    ensures r.Failure? && |r.error.recorded| == RecordCount ==> r.error.error == NoSuchElement
    ensures r.Failure? && |r.error.recorded| > 0 ==> !IsInvalidFile(r.error.error)
  {
    match FileDate(sc, lex)
    case Failure(e) => Failure(Aborted([], e))
    case Success((d, next)) => AfterDate(d, next, lex)
  }

  /** The steps after the header date. */
  function AfterDate(d: Date, sc: Scanner, lex: Lexers): (r: Result<(Date, seq<Obs>), Aborted>)
    ensures r.Success? ==> r.value.0 == d && |r.value.1| == RecordCount
    ensures r.Failure? ==> |r.error.recorded| <= RecordCount
    ensures r.Failure? && |r.error.recorded| == RecordCount ==> r.error.error == NoSuchElement
    ensures r.Failure? && |r.error.recorded| > 0 ==> !IsInvalidFile(r.error.error)
  {
    match EnsureLine(sc, StartOfFieldList)
    case Failure(e) => Failure(Aborted([], e))
    case Success(next) =>
      match SkipToRates(next)
      case Failure(e) => Failure(Aborted([], e))
      case Success(rates) => FromRates(d, rates, lex)
  }

  /** The three records and the token after them. */
  function FromRates(d: Date, sc: Scanner, lex: Lexers): (r: Result<(Date, seq<Obs>), Aborted>)
    ensures r.Success? ==> r.value.0 == d && |r.value.1| == RecordCount
    ensures r.Failure? ==> |r.error.recorded| <= RecordCount
    ensures r.Failure? && |r.error.recorded| == RecordCount ==> r.error.error == NoSuchElement
    ensures r.Failure? ==> !IsInvalidFile(r.error.error)
  {
    match ReadRecords(sc, RecordCount, lex)
    case Failure(a) => Failure(a)
    case Success((obs, last)) =>
      if NextToken(last).None? then Failure(Aborted(obs, NoSuchElement))
      else Success((d, obs))
  }

  // ---------------------------------------------------------------------
  // Each step on the lines it expects. In a run from the start of the
  // file the counter equals the index of the line the scanner is on, so
  // the lemmas that chain steps use `StartOf(lines, i, i)`.

  /** A line containing the marker's literal anywhere is accepted, and the position moves to the line after it. */
  lemma EnsureFound(lines: seq<string>, i: nat, c: nat, m: Marker)
    requires i + 1 < |lines| && Contains(lines[i], AsString(m))
    ensures EnsureLine(StartOf(lines, i, c), m) == Success(StartOf(lines, i + 1, c + 1))
  {
  }

  /** A non-blank line without the literal is reported with its counter value and its text. */
  lemma EnsureMissing(lines: seq<string>, i: nat, c: nat, m: Marker)
    requires i < |lines| && lines[i] != "" && !Contains(lines[i], AsString(m))
    ensures EnsureLine(StartOf(lines, i, c), m) == Failure(UnexpectedLine(m, c + 1, lines[i]))
  {
  }

  /** A header line with a key other than DATE. */
  ghost predicate OtherKey(x: string)
  {
    x != "" && MatchKeyValue(x).Some? && MatchKeyValue(x).value.0 != "DATE"
  }

  /** One header line with another key is counted and passed over. */
  lemma OtherKeyStep(lines: seq<string>, i: nat, c: nat, lex: Lexers)
    requires i + 1 < |lines| && OtherKey(lines[i])
    ensures HeaderLine(StartOf(lines, i, c), lex) == OtherKeyPassed(StartOf(lines, i + 1, c + 1))
    ensures FileDate(StartOf(lines, i, c), lex) == FileDate(StartOf(lines, i + 1, c + 1), lex)
  {
  }

  /** Lines `i` up to, not including, `e` are header lines with other keys. */
  ghost predicate OtherKeys(lines: seq<string>, i: nat, e: nat)
    requires i <= e <= |lines|
    decreases e - i
  {
    i == e || (OtherKey(lines[i]) && OtherKeys(lines, i + 1, e))
  }

  /** Header lines with other keys are passed over, one counter step each. */
  lemma {:induction false} OtherKeysSkipped(lines: seq<string>, i: nat, e: nat, lex: Lexers)
    requires i <= e < |lines| && OtherKeys(lines, i, e)
    ensures FileDate(StartOf(lines, i, i), lex) == FileDate(StartOf(lines, e, e), lex)
    decreases e - i
  {
    if i < e {
      OtherKeyStep(lines, i, i, lex);
      OtherKeysSkipped(lines, i + 1, e, lex);
    }
  }

  /** A header line with the DATE key and the value `v`. */
  ghost predicate DateLine(x: string, v: string)
  {
    x != "" && MatchKeyValue(x) == Some(("DATE", v))
  }

  /** `DATE=v` is such a line for every value drawn from `[\w ]`. */
  lemma DateLineMatches(v: string)
    requires KeyValueChars(v)
    ensures DateLine("DATE=" + v, v)
  {
    assert KeyValueChars("DATE") by {
      forall i | 0 <= i < 4 ensures IsWordChar("DATE"[i]) {}
    }
    MatchKeyValueComplete("DATE", v);
    assert "DATE" + "=" + v == "DATE=" + v;
  }

  /**
   * A DATE line ends the header: a date its value parses to is returned,
   * the position at the start of the next line and the counter one on; a
   * value the date parser rejects is reported with that counter value.
   */
  lemma DateLineRead(lines: seq<string>, i: nat, c: nat, v: string, lex: Lexers)
    requires i + 1 < |lines| && DateLine(lines[i], v) && v != ""
    ensures lex.date(v).Some? ==> FileDate(StartOf(lines, i, c), lex) == Success((lex.date(v).value, StartOf(lines, i + 1, c + 1)))
    ensures lex.date(v).None? ==> FileDate(StartOf(lines, i, c), lex) == Failure(InvalidDate(v, c + 1))
  {
  }

  /** `DATE=` with nothing after it splits into one field, so reading the value throws. */
  lemma EmptyDateValue(lines: seq<string>, i: nat, c: nat, lex: Lexers)
    requires i + 1 < |lines| && DateLine(lines[i], "")
    ensures FileDate(StartOf(lines, i, c), lex) == Failure(IndexOutOfBounds(1))
  {
  }

  /** A non-blank line that is no `key=value` match ends the header without a date. */
  lemma NoHeaderLine(lines: seq<string>, i: nat, c: nat, lex: Lexers)
    requires i < |lines| && lines[i] != "" && MatchKeyValue(lines[i]).None?
    ensures FileDate(StartOf(lines, i, c), lex) == Failure(MissingDate)
  {
  }

  /** A line whose text after its first '=' strays outside `[\w ]` is no `key=value` match. */
  lemma ValueOutsideClass(k: string, v: string)
    requires '=' !in k && !KeyValueChars(v)
    ensures MatchKeyValue(k + "=" + v).None?
  {
    IndexOfAfterPrefix(k, v, '=');
    var x := k + "=" + v;
    assert x == k + ['='] + v;
    assert x[|k| + 1..] == v;
  }

  /**
   * A date written with characters outside `[\w ]`, such as "2018-10-15",
   * is no `key=value` match at all, so it is reported missing, not invalid.
   */
  lemma DashedDateIsMissing(lines: seq<string>, i: nat, c: nat, k: string, v: string, lex: Lexers)
    requires k == "DATE" && v == "2018-10-15"
    requires i < |lines| && lines[i] == k + "=" + v
    ensures FileDate(StartOf(lines, i, c), lex) == Failure(MissingDate)
  {
    assert !KeyValueChars(v) by {
      assert v[4] == '-';
    }
    ValueOutsideClass(k, v);
    NoHeaderLine(lines, i, c, lex);
  }

  /**
   * A blank line in front of a `key=value` line: the token is found on the
   * next line, but `findInLine` does not look past the blank one, so the
   * null match is split and throws.
   */
  lemma BlankBeforeHeaderLine(lines: seq<string>, i: nat, c: nat, lex: Lexers)
    requires i + 1 < |lines| && lines[i] == "" && lines[i + 1] != "" && MatchKeyValue(lines[i + 1]).Some?
    ensures FileDate(StartOf(lines, i, c), lex) == Failure(NullPointer)
  {
  }

  /** Lines `i` up to, not including, `e` do not hold the rates literal; they are passed over unread. */
  lemma {:induction false} SkipPast(lines: seq<string>, i: nat, e: nat)
    requires i <= e < |lines|
    requires forall j :: i <= j < e ==> !Contains(lines[j], AsString(StartOfExchangeRates))
    ensures SkipToRates(StartOf(lines, i, i)) == SkipToRates(StartOf(lines, e, e))
    decreases e - i
  {
    if i < e {
      assert SkipLine(StartOf(lines, i, i)) == LinePassed(StartOf(lines, i + 1, i + 1));
      SkipPast(lines, i + 1, e);
    }
  }

  /** The first line holding the literal ends the skip; the records start on the line after it. */
  lemma SkipFound(lines: seq<string>, i: nat, c: nat)
    requires i + 1 < |lines| && Contains(lines[i], AsString(StartOfExchangeRates))
    ensures SkipToRates(StartOf(lines, i, c)) == Success(StartOf(lines, i + 1, c + 1))
  {
    assert SkipLine(StartOf(lines, i, c)) == RatesFound(StartOf(lines, i + 1, c + 1));
  }

  /** Without a line holding the literal, the scanner runs out of lines. */
  lemma {:induction false} SkipMissing(lines: seq<string>, i: nat, c: nat)
    requires i < |lines|
    requires forall j :: i <= j < |lines| ==> !Contains(lines[j], AsString(StartOfExchangeRates))
    ensures SkipToRates(StartOf(lines, i, c)) == Failure(NoSuchElement)
    decreases |lines| - i
  {
    var sc := StartOf(lines, i, c);
    if i + 1 < |lines| {
      assert SkipLine(sc) == LinePassed(StartOf(lines, i + 1, c + 1));
      SkipMissing(lines, i + 1, c + 1);
    } else if lines[i] != "" {
      var e := EndOf(lines, i, c + 1);
      assert SkipLine(sc) == LinePassed(e);
      assert !Contains("", AsString(StartOfExchangeRates));
      assert SkipLine(e) == OutOfLines;
    } else {
      assert SkipLine(sc) == OutOfLines;
    }
  }

  /** A record line `getExchangeRateChange` accepts: not blank, and its fields read. */
  ghost predicate GoodRecord(text: string, lex: Lexers)
  {
    text != "" && RecordFields(text, lex).Success?
  }

  /** The observation a good record line stands for. */
  ghost function RecordFrom(text: string, lex: Lexers): Obs
    requires GoodRecord(text, lex)
  {
    RecordFields(text, lex).value
  }

  /** Lines `i` up to, not including, `e` are good record lines. */
  ghost predicate GoodRecords(lines: seq<string>, i: nat, e: nat, lex: Lexers)
    requires i <= e <= |lines|
    decreases e - i
  {
    i == e || (GoodRecord(lines[i], lex) && GoodRecords(lines, i + 1, e, lex))
  }

  /** The observations those lines stand for, in file order. */
  ghost function RecordsAt(lines: seq<string>, i: nat, e: nat, lex: Lexers): (r: seq<Obs>)
    requires i <= e <= |lines| && GoodRecords(lines, i, e, lex)
    ensures |r| == e - i
    decreases e - i
  {
    if i == e then [] else [RecordFrom(lines[i], lex)] + RecordsAt(lines, i + 1, e, lex)
  }

  /** The first of several good record lines, and the rest. */
  lemma RecordsAtFirst(lines: seq<string>, i: nat, e: nat, lex: Lexers)
    requires i < e <= |lines| && GoodRecords(lines, i, e, lex)
    ensures GoodRecord(lines[i], lex) && GoodRecords(lines, i + 1, e, lex)
    ensures RecordsAt(lines, i, e, lex) == [RecordFrom(lines[i], lex)] + RecordsAt(lines, i + 1, e, lex)
  {
  }

  /** The same from the end of line `p`, the line before: `next()` steps over the one delimiter first. */
  lemma RecordAfterToken(lines: seq<string>, p: nat, i: nat, c: nat, lex: Lexers)
    requires p + 1 == i < |lines| && GoodRecord(lines[i], lex)
    ensures ReadRecord(EndOf(lines, p, c), lex) == Success((RecordFrom(lines[i], lex), EndOf(lines, i, c + 1)))
  {
  }

  /** A record read, then `m` more: the first observation goes in front of the others. */
  lemma ReadRecordsStep(sc: Scanner, n: nat, m: nat, obs: seq<Obs>, all: seq<Obs>, last: Scanner, lex: Lexers)
    requires n == m + 1 && ReadRecord(sc, lex).Success?
    requires ReadRecords(ReadRecord(sc, lex).value.1, m, lex) == Success((obs, last))
    requires all == [ReadRecord(sc, lex).value.0] + obs
    ensures ReadRecords(sc, n, lex) == Success((all, last))
  {
  }

  /**
   * Good record lines from line `i` up to but not including line `e`, read
   * from the end of line `p`, the line before: one per line, in order.
   */
  lemma {:induction false} RecordsAfterLine(lines: seq<string>, p: nat, i: nat, e: nat, n: nat, lex: Lexers)
    requires p + 1 == i <= e <= |lines| && n == e - i && GoodRecords(lines, i, e, lex)
    ensures ReadRecords(EndOf(lines, p, i), n, lex) == Success((RecordsAt(lines, i, e, lex), EndOf(lines, e - 1, e)))
    decreases n
  {
    if 0 < n {
      var rest := RecordsAt(lines, i + 1, e, lex);
      var last := EndOf(lines, e - 1, e);
      RecordsAtFirst(lines, i, e, lex);
      RecordAfterToken(lines, p, i, i, lex);
      RecordsAfterLine(lines, i, i + 1, e, n - 1, lex);
      ReadRecordsStep(EndOf(lines, p, i), n, n - 1, rest, RecordsAt(lines, i, e, lex), last, lex);
    }
  }

  /** Two positions from which `next()` reads the same token to the same place read the same records. */
  lemma SameNextToken(a: Scanner, b: Scanner, n: nat, lex: Lexers)
    requires n > 0 && NextToken(a) == NextToken(b) && a.count == b.count
    ensures ReadRecords(a, n, lex) == ReadRecords(b, n, lex)
  {
    assert ReadRecord(a, lex) == ReadRecord(b, lex);
  }

  /** At the start of a non-blank line `next()` reads the line, just as it does from the end of line `p`, the line before. */
  lemma LineStartLikeEnd(lines: seq<string>, p: nat, i: nat, c: nat)
    requires p + 1 == i < |lines| && lines[i] != ""
    ensures NextToken(StartOf(lines, i, c)) == NextToken(EndOf(lines, p, c))
  {
  }

  /** Good record lines from the start of line `i` up to but not including line `e` are read one per line, in order. */
  lemma RecordsFromLine(lines: seq<string>, i: nat, e: nat, lex: Lexers)
    requires 0 < i < e <= |lines| && GoodRecords(lines, i, e, lex)
    ensures ReadRecords(StartOf(lines, i, i), e - i, lex) == Success((RecordsAt(lines, i, e, lex), EndOf(lines, e - 1, e)))
  {
    var p := i - 1;
    RecordsAtFirst(lines, i, e, lex);
    LineStartLikeEnd(lines, p, i, i);
    SameNextToken(StartOf(lines, i, i), EndOf(lines, p, i), e - i, lex);
    RecordsAfterLine(lines, p, i, e, e - i, lex);
  }

  /** A record line with more than three fields is read from its first three. */
  lemma ExtraFieldsIgnored(code: string, rate: string, time: string, extra: string, lex: Lexers)
    requires '|' !in code && '|' !in rate && '|' !in time && '|' !in extra && extra != ""
    requires lex.rate(rate).Some? && lex.time(time).Some?
    ensures GoodRecord(code + "|" + rate + "|" + time + "|" + extra, lex)
    ensures RecordFrom(code + "|" + rate + "|" + time + "|" + extra, lex) == NewObs(code, lex.time(time).value, lex.rate(rate).value)
  {
    SplitFourFields(code, rate, time, extra, '|');
    assert code + "|" + rate + "|" + time + "|" + extra == code + ['|'] + rate + ['|'] + time + ['|'] + extra;
  }

  /** A record line `code|rate|time`, with or without a '|' after the time, reads as those three fields. */
  lemma ThreeFieldRecord(code: string, rate: string, time: string, lex: Lexers)
    requires '|' !in code && '|' !in rate && '|' !in time && time != ""
    requires lex.rate(rate).Some? && lex.time(time).Some?
    ensures GoodRecord(code + "|" + rate + "|" + time, lex)
    ensures RecordFrom(code + "|" + rate + "|" + time, lex) == NewObs(code, lex.time(time).value, lex.rate(rate).value)
    ensures GoodRecord(code + "|" + rate + "|" + time + "|", lex)
    ensures RecordFrom(code + "|" + rate + "|" + time + "|", lex) == NewObs(code, lex.time(time).value, lex.rate(rate).value)
  {
    SplitThreeFields(code, rate, time, '|');
    assert code + "|" + rate + "|" + time == code + ['|'] + rate + ['|'] + time;
    assert code + "|" + rate + "|" + time + "|" == code + ['|'] + rate + ['|'] + time + ['|'];
  }

  /** Some token follows line `i`: a further line that is not the empty last one. */
  predicate TokenAfter(lines: seq<string>, i: nat)
  {
    i + 1 < |lines| && !(lines[i + 1] == "" && i + 2 == |lines|)
  }

  /** At the end of line `j`, `next()` finds a token exactly when one follows that line. */
  lemma TokenAfterLine(lines: seq<string>, j: nat, c: nat)
    ensures NextToken(EndOf(lines, j, c)).Some? <==> TokenAfter(lines, j)
  {
  }

  /** After the records the call completes exactly when `next()` finds one more token. */
  lemma FromRatesOnRecords(d: Date, sc: Scanner, obs: seq<Obs>, last: Scanner, lex: Lexers)
    requires ReadRecords(sc, RecordCount, lex) == Success((obs, last))
    ensures FromRates(d, sc, lex) == if NextToken(last).Some? then Success((d, obs)) else Failure(Aborted(obs, NoSuchElement))
  {
  }

  /**
   * The outcome promised once the rates literal is on line `r` and three
   * good records follow: the date and the records when a token follows
   * them, otherwise NoSuchElementException with all three recorded.
   */
  ghost function RatesOutcome(d: Date, lines: seq<string>, r: nat, lex: Lexers): Result<(Date, seq<Obs>), Aborted>
    requires r + 1 + RecordCount <= |lines| && GoodRecords(lines, r + 1, r + 1 + RecordCount, lex)
  {
    if TokenAfter(lines, r + RecordCount) then Success((d, RecordsAt(lines, r + 1, r + 1 + RecordCount, lex)))
    else Failure(Aborted(RecordsAt(lines, r + 1, r + 1 + RecordCount, lex), NoSuchElement))
  }

  /**
   * START-OF-EXCHANGE-RATES on line `r` and three good records after it:
   * the call completes exactly when some token follows them, and
   * otherwise throws with all three already recorded.
   */
  lemma RatesStage(d: Date, lines: seq<string>, r: nat, lex: Lexers)
    requires r + 1 + RecordCount <= |lines| && GoodRecords(lines, r + 1, r + 1 + RecordCount, lex)
    ensures FromRates(d, StartOf(lines, r + 1, r + 1), lex) == RatesOutcome(d, lines, r, lex)
  {
    var e := r + 1 + RecordCount;
    RecordsFromLine(lines, r + 1, e, lex);
    assert e - (r + 1) == RecordCount && e - 1 == r + RecordCount;
    TokenAfterLine(lines, r + RecordCount, e);
    FromRatesOnRecords(d, StartOf(lines, r + 1, r + 1), RecordsAt(lines, r + 1, e, lex), EndOf(lines, r + RecordCount, e), lex);
  }

  // ---------------------------------------------------------------------
  // Whole files

  /** Once START-OF-FILE is accepted, the rest of the call is the steps after it. */
  lemma ReceiveAfterStart(lines: seq<string>, sc: Scanner, lex: Lexers)
    requires EnsureLine(Open(lines), StartOfFile) == Success(sc)
    ensures ReceiveLines(lines, lex) == AfterStart(sc, lex)
  {
  }

  /** Once the header date is read, the rest of the call is the steps after it. */
  lemma AfterStartOnDate(sc: Scanner, d: Date, next: Scanner, lex: Lexers)
    requires FileDate(sc, lex) == Success((d, next))
    ensures AfterStart(sc, lex) == AfterDate(d, next, lex)
  {
  }

  /** Once START-OF-FIELD-LIST and the skip are passed, the rest of the call is the records. */
  lemma AfterDateOnRates(d: Date, sc: Scanner, next: Scanner, rates: Scanner, lex: Lexers)
    requires EnsureLine(sc, StartOfFieldList) == Success(next) && SkipToRates(next) == Success(rates)
    ensures AfterDate(d, sc, lex) == FromRates(d, rates, lex)
  {
  }

  /** START-OF-FILE found on the first line: the rest starts from the line after it, counted as line one. */
  lemma StartStage(lines: seq<string>, lex: Lexers)
    requires 1 < |lines| && Contains(lines[0], AsString(StartOfFile))
    ensures ReceiveLines(lines, lex) == AfterStart(StartOf(lines, 1, 1), lex)
  {
    EnsureFound(lines, 0, 0, StartOfFile);
    ReceiveAfterStart(lines, StartOf(lines, 1, 1), lex);
  }

  /** The input starts without the START-OF-FILE literal in its first line. */
  lemma WrongStart(lines: seq<string>, lex: Lexers)
    requires 0 < |lines| && lines[0] != "" && !Contains(lines[0], AsString(StartOfFile))
    ensures ReceiveLines(lines, lex) == Failure(Aborted([], UnexpectedLine(StartOfFile, 1, lines[0])))
  {
    EnsureMissing(lines, 0, 0, StartOfFile);
  }

  /**
   * Header lines with other keys from line `i`, then a DATE line at `e`
   * whose value parses: the steps after the date follow from the next line.
   */
  lemma HeaderStage(lines: seq<string>, i: nat, e: nat, v: string, lex: Lexers)
    requires i <= e && e + 1 < |lines| && OtherKeys(lines, i, e)
    requires DateLine(lines[e], v) && v != "" && lex.date(v).Some?
    ensures AfterStart(StartOf(lines, i, i), lex) == AfterDate(lex.date(v).value, StartOf(lines, e + 1, e + 1), lex)
  {
    OtherKeysSkipped(lines, i, e, lex);
    DateLineRead(lines, e, e, v, lex);
    AfterStartOnDate(StartOf(lines, i, i), lex.date(v).value, StartOf(lines, e + 1, e + 1), lex);
  }

  /**
   * START-OF-FIELD-LIST on line `i`, lines without the rates literal, and
   * the literal on line `e`: the records are read from the line after it.
   */
  lemma FieldListStage(d: Date, lines: seq<string>, i: nat, e: nat, lex: Lexers)
    requires i < e && e + 1 < |lines| && Contains(lines[i], AsString(StartOfFieldList))
    requires forall j :: i + 1 <= j < e ==> !Contains(lines[j], AsString(StartOfExchangeRates))
    requires Contains(lines[e], AsString(StartOfExchangeRates))
    ensures AfterDate(d, StartOf(lines, i, i), lex) == FromRates(d, StartOf(lines, e + 1, e + 1), lex)
  {
    EnsureFound(lines, i, i, StartOfFieldList);
    SkipPast(lines, i + 1, e);
    SkipFound(lines, e, e);
    AfterDateOnRates(d, StartOf(lines, i, i), StartOf(lines, i + 1, i + 1), StartOf(lines, e + 1, e + 1), lex);
  }

  /** START-OF-FILE on the first line, header lines with other keys, and on line `dl` a DATE that parses. */
  ghost predicate WellFormedHeader(lines: seq<string>, dl: nat, v: string, lex: Lexers)
  {
    1 <= dl && dl + 1 < |lines|
    && Contains(lines[0], AsString(StartOfFile))
    && OtherKeys(lines, 1, dl)
    && DateLine(lines[dl], v) && v != "" && lex.date(v).Some?
  }

  /** No line from `i` up to, not including, `e` holds the START-OF-EXCHANGE-RATES literal. */
  ghost predicate NoRatesLiteral(lines: seq<string>, i: nat, e: nat)
  {
    e <= |lines| && forall j :: i <= j < e ==> !Contains(lines[j], AsString(StartOfExchangeRates))
  }

  /**
   * START-OF-FIELD-LIST on line `fl`, lines without the rates literal, the
   * literal on line `rl`, and three good records after it.
   */
  ghost predicate WellFormedBody(lines: seq<string>, fl: nat, rl: nat, lex: Lexers)
  {
    fl < rl && rl + 1 + RecordCount <= |lines|
    && Contains(lines[fl], AsString(StartOfFieldList))
    && NoRatesLiteral(lines, fl + 1, rl)
    && Contains(lines[rl], AsString(StartOfExchangeRates))
    && GoodRecords(lines, rl + 1, rl + 1 + RecordCount, lex)
  }

  /** The shape of a well-formed file: its header, then START-OF-FIELD-LIST right after the DATE line. */
  ghost predicate WellFormed(lines: seq<string>, dl: nat, rl: nat, v: string, lex: Lexers): (b: bool)
    ensures b ==> WellFormedHeader(lines, dl, v, lex) && WellFormedBody(lines, dl + 1, rl, lex)
    ensures b ==> rl + 1 + RecordCount <= |lines| && GoodRecords(lines, rl + 1, rl + 1 + RecordCount, lex) && lex.date(v).Some?
  {
    WellFormedHeader(lines, dl, v, lex) && WellFormedBody(lines, dl + 1, rl, lex)
  }

  /** What a well-formed file promises: the header date and the three records, as the rates stage ends. */
  ghost function WellFormedOutcome(lines: seq<string>, dl: nat, rl: nat, v: string, lex: Lexers): Result<(Date, seq<Obs>), Aborted>
    requires WellFormed(lines, dl, rl, v, lex)
  {
    RatesOutcome(lex.date(v).value, lines, rl, lex)
  }

  /** In a well-formed file the rest starts after the DATE line. */
  lemma ThroughDate(lines: seq<string>, dl: nat, rl: nat, v: string, lex: Lexers)
    requires WellFormed(lines, dl, rl, v, lex)
    ensures ReceiveLines(lines, lex) == AfterDate(lex.date(v).value, StartOf(lines, dl + 1, dl + 1), lex)
  {
    StartStage(lines, lex);
    HeaderStage(lines, 1, dl, v, lex);
  }

  /** In a well-formed file the call ends as the rates stage does. */
  lemma FromFieldList(lines: seq<string>, dl: nat, rl: nat, v: string, lex: Lexers)
    requires WellFormed(lines, dl, rl, v, lex)
    ensures AfterDate(lex.date(v).value, StartOf(lines, dl + 1, dl + 1), lex) == RatesOutcome(lex.date(v).value, lines, rl, lex)
  {
    FieldListStage(lex.date(v).value, lines, dl + 1, rl, lex);
    RatesStage(lex.date(v).value, lines, rl, lex);
  }

  /**
   * A well-formed file is received, giving the header date and the three
   * observations in file order, exactly when a token follows the third
   * record; otherwise all three are recorded and the call throws.
   */
  lemma WellFormedFile(lines: seq<string>, dl: nat, rl: nat, v: string, lex: Lexers)
    requires WellFormed(lines, dl, rl, v, lex)
    ensures ReceiveLines(lines, lex) == WellFormedOutcome(lines, dl, rl, v, lex)
  {
    ThroughDate(lines, dl, rl, v, lex);
    FromFieldList(lines, dl, rl, v, lex);
  }

  /** A header whose first line after the other keys is no `key=value` match reports the date as missing. */
  lemma MissingDateFile(lines: seq<string>, e: nat, lex: Lexers)
    requires 1 <= e < |lines| && Contains(lines[0], AsString(StartOfFile)) && OtherKeys(lines, 1, e)
    requires lines[e] != "" && MatchKeyValue(lines[e]).None?
    ensures ReceiveLines(lines, lex) == Failure(Aborted([], MissingDate))
  {
    StartStage(lines, lex);
    OtherKeysSkipped(lines, 1, e, lex);
    NoHeaderLine(lines, e, e, lex);
  }

  /**
   * A DATE value the date parser rejects is reported on the counter value
   * of its line: one for START-OF-FILE, plus one per header line read.
   */
  lemma InvalidDateFile(lines: seq<string>, e: nat, v: string, lex: Lexers)
    requires 1 <= e && e + 1 < |lines| && Contains(lines[0], AsString(StartOfFile)) && OtherKeys(lines, 1, e)
    requires DateLine(lines[e], v) && v != "" && lex.date(v).None?
    ensures ReceiveLines(lines, lex) == Failure(Aborted([], InvalidDate(v, e + 1)))
  {
    StartStage(lines, lex);
    OtherKeysSkipped(lines, 1, e, lex);
    DateLineRead(lines, e, e, v, lex);
  }

  /**
   * The line straight after the DATE line must hold START-OF-FIELD-LIST:
   * a further `key=value` line there, or anything else, is rejected.
   */
  lemma FieldListAfterDate(lines: seq<string>, e: nat, v: string, lex: Lexers)
    requires 1 <= e && e + 1 < |lines| && Contains(lines[0], AsString(StartOfFile)) && OtherKeys(lines, 1, e)
    requires DateLine(lines[e], v) && v != "" && lex.date(v).Some?
    requires lines[e + 1] != "" && !Contains(lines[e + 1], AsString(StartOfFieldList))
    ensures ReceiveLines(lines, lex) == Failure(Aborted([], UnexpectedLine(StartOfFieldList, e + 2, lines[e + 1])))
  {
    StartStage(lines, lex);
    HeaderStage(lines, 1, e, v, lex);
    EnsureMissing(lines, e + 1, e + 1, StartOfFieldList);
  }
}
