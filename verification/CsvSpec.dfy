/** What one pass over a whole text of delimited records yields: the specification of src/csv_reader.c. */
module CsvSpec {
  import opened Bytes

  const MAX_RECORD := 64 * 1024 * 1024

  const CR: byte := 13
  const LF: byte := 10
  const BOM: bytes := [0xEF, 0xBB, 0xBF]

  /** `delimiter` is an ASCII byte; `quote` is a byte, or -1 for a file with no quoting. The reader's
      `limit` is always MAX_RECORD; it is a parameter so that theorems can compare limits. */
  datatype Dialect = Dialect(delimiter: int, quote: int, limit: nat)

  predicate WfDialect(d: Dialect) {
    0 <= d.delimiter < 128 && -1 <= d.quote < 256
  }

  /** Neither special byte is a line break, and they differ: what csv_read_options insists on. */
  predicate Sensible(d: Dialect) {
    && WfDialect(d) && d.delimiter != d.quote
    && d.delimiter != CR as int && d.delimiter != LF as int && d.quote != CR as int && d.quote != LF as int
  }

  datatype Problem = NoProblem | TextAfterQuote

  datatype Error = UnclosedQuote(line: nat) | RecordTooLong(line: nat) | ReadFailed

  /** A record: its fields end to end, where each begins, and where the record itself began. */
  datatype Record = Record(content: bytes, starts: seq<nat>, problem: Problem, line: nat, offset: nat)

  datatype Outcome = Got(record: Record) | EndOfInput | Failed(error: Error)

  /** What is still to be read, and the line its first byte is on. */
  datatype Cursor = Cursor(rest: bytes, line: nat)

  /** The reader between two calls. `hand` is how many bytes the first refill brings, which matters only
      to the byte order mark; `fails` says that reading the file breaks off where the text ends. */
  datatype State = State(started: bool, hand: nat, fails: bool, consumed: nat, at: Cursor)

  /** The next byte, or -1 at the end. */
  function Peek(s: bytes): int {
    if s == [] then -1 else s[0] as int
  }

  predicate IsBreak(c: int) {
    c == CR as int || c == LF as int
  }

  /** `take_break`. */
  function TakeBreak(c: Cursor): Cursor
    requires IsBreak(Peek(c.rest))
  {
    if c.rest[0] == CR && Peek(c.rest[1..]) == LF as int then Cursor(c.rest[2..], c.line + 1)
    else Cursor(c.rest[1..], c.line + 1)
  }

  /** Blank lines are skipped and still counted. */
  function SkipBlank(c: Cursor): (r: Cursor)
    ensures !IsBreak(Peek(r.rest)) && |r.rest| <= |c.rest|
    decreases |c.rest|
  {
    if IsBreak(Peek(c.rest)) then SkipBlank(TakeBreak(c)) else c
  }

  datatype Part = Done(at: Cursor, content: bytes) | Unclosed(at: Cursor, content: bytes) | Over(at: Cursor)

  /** One round of a loop over a field: it ends the part, or goes on. */
  datatype Once = Stop(part: Part) | On(at: Cursor, content: bytes)

  /** One round inside quotes: a doubled quote is one quote, a CRLF is content and one line. */
  function QuotedOnce(c: Cursor, content: bytes, d: Dialect): (r: Once)
    ensures r.On? ==> |r.at.rest| < |c.rest|
    ensures r.Stop? ==> |r.part.at.rest| <= |c.rest|
  {
    if c.rest == [] then Stop(Unclosed(c, content))
    else
      var b, rest := c.rest[0], c.rest[1..];
      if b as int == d.quote then
        if Peek(rest) == d.quote then
          if |content| >= d.limit then Stop(Over(Cursor(rest[1..], c.line)))
          else On(Cursor(rest[1..], c.line), content + [b])
        else Stop(Done(Cursor(rest, c.line), content))
      else if b == CR && Peek(rest) == LF as int then
        if |content| >= d.limit then Stop(Over(Cursor(rest, c.line)))
        else if |content| + 1 >= d.limit then Stop(Over(Cursor(rest[1..], c.line + 1)))
        else On(Cursor(rest[1..], c.line + 1), content + [CR, LF])
      else
        var line := if IsBreak(b as int) then c.line + 1 else c.line;
        if |content| >= d.limit then Stop(Over(Cursor(rest, line)))
        else On(Cursor(rest, line), content + [b])
  }

  /** The inside of a quoted field, after its opening quote. */
  function Quoted(c: Cursor, content: bytes, d: Dialect): (r: Part)
    ensures |r.at.rest| <= |c.rest|
    decreases |c.rest|
  {
    match QuotedOnce(c, content, d)
    case Stop(part) => part
    case On(at, content') => Quoted(at, content', d)
  }

  predicate EndsField(c: int, d: Dialect) {
    c < 0 || c == d.delimiter || IsBreak(c)
  }

  /** Unquoted text, or what follows a closing quote. */
  function Unquoted(c: Cursor, content: bytes, d: Dialect): (r: Part)
    ensures |r.at.rest| <= |c.rest| && !r.Unclosed?
    ensures r.Done? ==> EndsField(Peek(r.at.rest), d)
    ensures r.Done? && !EndsField(Peek(c.rest), d) ==> |r.at.rest| < |c.rest|
    decreases |c.rest|
  {
    if EndsField(Peek(c.rest), d) then Done(c, content)
    else if |content| >= d.limit then Over(Cursor(c.rest[1..], c.line))
    else Unquoted(Cursor(c.rest[1..], c.line), content + [c.rest[0]], d)
  }

  /** One field: the quoted part if it starts with a quote, then the unquoted part. */
  function Field(c: Cursor, content: bytes, d: Dialect): (r: Part)
    ensures |r.at.rest| <= |c.rest|
    ensures r.Done? ==> EndsField(Peek(r.at.rest), d)
    ensures r.Done? && !EndsField(Peek(c.rest), d) ==> |r.at.rest| < |c.rest|
  {
    if d.quote >= 0 && Peek(c.rest) == d.quote then
      match Quoted(Cursor(c.rest[1..], c.line), content, d)
      case Done(at, content') => Unquoted(at, content', d)
      case stopped => stopped
    else Unquoted(c, content, d)
  }

  /** Whether text follows the closing quote of this field. */
  predicate Ambiguous(c: Cursor, content: bytes, d: Dialect) {
    d.quote >= 0 && Peek(c.rest) == d.quote &&
    match Quoted(Cursor(c.rest[1..], c.line), content, d)
    case Done(at, _) => !EndsField(Peek(at.rest), d)
    case _ => false
  }

  /** The record so far, while its fields are being read. */
  datatype Draft = Draft(content: bytes, starts: seq<nat>, problem: Problem)

  datatype Ended = Complete(at: Cursor, draft: Draft) | Stopped(at: Cursor, error: Error)

  datatype FieldsOnce = RecordEnds(ended: Ended) | NextField(at: Cursor, draft: Draft)

  /** One field of a record; `line` is the record's own line. */
  function OneField(c: Cursor, draft: Draft, d: Dialect, fails: bool, line: nat): (r: FieldsOnce)
    requires WfDialect(d)
    ensures r.NextField? ==> |r.at.rest| < |c.rest|
    ensures r.RecordEnds? ==> |r.ended.at.rest| <= |c.rest|
    ensures r.RecordEnds? && r.ended.Complete? && !IsBreak(Peek(c.rest)) && c.rest != [] ==> |r.ended.at.rest| < |c.rest|
  {
    var problem := if draft.problem.NoProblem? && Ambiguous(c, draft.content, d) then TextAfterQuote else draft.problem;
    match Field(c, draft.content, d)
    case Unclosed(at, _) => RecordEnds(Stopped(at, if fails then ReadFailed else UnclosedQuote(c.line)))
    case Over(at) => RecordEnds(Stopped(at, RecordTooLong(line)))
    case Done(at, content) =>
      var draft' := Draft(content, draft.starts + [|draft.content|], problem);
      if fails && at.rest == [] then RecordEnds(Stopped(at, ReadFailed))
      else if Peek(at.rest) == d.delimiter then NextField(Cursor(at.rest[1..], at.line), draft')
      else RecordEnds(Complete(if IsBreak(Peek(at.rest)) then TakeBreak(at) else at, draft'))
  }

  /** The fields of one record, from the one that begins at `c`. */
  function Fields(c: Cursor, draft: Draft, d: Dialect, fails: bool, line: nat): (r: Ended)
    requires WfDialect(d)
    ensures |r.at.rest| <= |c.rest|
    ensures r.Complete? && !IsBreak(Peek(c.rest)) && c.rest != [] ==> |r.at.rest| < |c.rest|
    decreases |c.rest|
  {
    match OneField(c, draft, d, fails, line)
    case RecordEnds(ended) => ended
    case NextField(at, draft') => Fields(at, draft', d, fails, line)
  }

  /** The byte order mark is looked for in what the first refill brought. */
  function SkipBom(st: State): Cursor {
    if !st.started && st.hand >= 3 && BOM <= st.at.rest then st.at.(rest := st.at.rest[3..]) else st.at
  }

  function Moved(st: State, at: Cursor): State {
    var used := |st.at.rest| - |at.rest|;
    st.(started := true, consumed := if used >= 0 then st.consumed + used else st.consumed, at := at)
  }

  /** `gb_csv_next`. */
  function Next(st: State, d: Dialect): (r: (Outcome, State))
    requires WfDialect(d)
    ensures |r.1.at.rest| <= |st.at.rest|
    ensures r.0.Got? ==> |r.1.at.rest| < |st.at.rest|
  {
    var c := SkipBlank(SkipBom(st));
    if c.rest == [] then (if st.fails then Failed(ReadFailed) else EndOfInput, Moved(st, c))
    else
      match Fields(c, Draft([], [], NoProblem), d, st.fails, c.line)
      case Stopped(at, error) => (Failed(error), Moved(st, at))
      case Complete(at, draft) =>
        (Got(Record(draft.content, draft.starts, draft.problem, c.line, Moved(st, c).consumed)), Moved(st, at))
  }

  /** A reader over `text`, of which the first refill brings `hand` bytes. */
  function Open(text: bytes, hand: nat, fails: bool): State {
    State(false, hand, fails, 0, Cursor(text, 1))
  }

  /** Every record, and how the reading ends. */
  function ReadAll(st: State, d: Dialect): (r: (seq<Record>, Outcome))
    requires WfDialect(d)
    ensures !r.1.Got?
    decreases |st.at.rest|
  {
    var (o, st') := Next(st, d);
    if o.Got? then
      var r := ReadAll(st', d);
      ([o.record] + r.0, r.1)
    else ([], o)
  }

  /** `gb_csv_field`. */
  function FieldAt(r: Record, i: nat): bytes
    requires i < |r.starts|
  {
    var end := if i + 1 < |r.starts| then r.starts[i + 1] else |r.content|;
    if r.starts[i] <= end <= |r.content| then r.content[r.starts[i]..end] else []
  }

  function FieldsOf(r: Record): seq<bytes> {
    seq(|r.starts|, i requires 0 <= i < |r.starts| => FieldAt(r, i))
  }
}
