/**
  What `lexer_next` answers (`src/lexer.c`), as a function of the text and of what the lexer keeps between calls:
  its place, the open brackets, the open `consider` blocks, and whether a lens or an SQL body comes next.
*/
module LexerSpec {
  import opened Chars
  import opened LexerText
  import opened Wrappers

  datatype Kind =
    | Eof
    | Newline
    | Ident
    | QualifiedIdent
    | Number
    | StringLit
    | LensContent
    | Keyword(word: string)
    | EndConsider
    | ConsiderIf
    | ConsiderElse
    | WindowOpen
    | DatabaseOpen
    | SqlOpen
    | SqlText
    | ModifierPrefix
    | ModifierValue
    | Symbol(text: string)
    | Open(bracket: char)
    | Closed(bracket: char)
    | Error
  {
    predicate Inline() { ModifierPrefix? || ModifierValue? }
    predicate Last() { Eof? || Error? }
  }

  /** A token: its kind, its span, and the line and column it is given. */
  datatype Token = Token(kind: Kind, start: nat, length: nat, line: int, column: int)

  /** What stands at a place: a token of this kind, its span from `start` on, and the text read to `end`. */
  datatype Scan = Scan(kind: Kind, start: nat, length: nat, end: nat)

  /** Where a lexer is, and the line and column it keeps. */
  datatype Place = Place(off: nat, line: int, column: int)

  datatype SqlBody = NotDue | HeadRead | Due

  /** The open brackets and the columns of the open `consider` blocks, outermost first. */
  datatype Context = Context(brackets: seq<char>, considers: seq<int>, sql: SqlBody)

  datatype State = State(at: Place, lens: bool, ctx: Context)

  /** How many brackets, and how many `consider` blocks, the lexer remembers. */
  const STACK: nat := 64

  predicate At?(s: string, st: State) { st.at.off <= |s| }

  /** `advance`, over every byte up to `to`. */
  function Move(s: string, p: Place, to: nat): (r: Place)
    requires p.off <= to <= |s|
    ensures r.off == to
  {
    Place(to, p.line + Breaks(s, p.off, to),
          if Breaks(s, p.off, to) > 0 then 1 + SinceBreak(s, p.off, to) else p.column + (to - p.off))
  }

  /** The span is all that was read. */
  function Whole(kind: Kind, start: nat, end: nat): Scan
    requires start <= end
  {
    Scan(kind, start, end - start, end)
  }

  /* ---- one kind of token each: where it ends ---- */

  /** `string_token`, past its opening quote. */
  function StringFrom(s: string, i: nat): (r: (Kind, nat))
    requires i <= |s|
    ensures i <= r.1 <= |s| && (r.0 == StringLit || r.0 == Error)
    ensures r.0 == StringLit ==> i < r.1 && s[r.1 - 1] == '"'
    decreases |s| - i
  {
    if i == |s| then (Error, i)
    else if s[i] == '"' then (StringLit, i + 1)
    else if s[i] != '\\' then StringFrom(s, i + 1)
    else if i + 1 == |s| || s[i + 1] == '\n' then (Error, i + 1)
    else if s[i + 1] != 'u' then StringFrom(s, i + 2)
    else
      var u := UnicodeFrom(s, i + 2);
      if u.0 then StringFrom(s, u.1) else (Error, u.1)
  }

  /** `{`, digits of base sixteen and `}`, after `\u`. */
  function UnicodeFrom(s: string, i: nat): (r: (bool, nat))
    requires i <= |s|
    ensures i <= r.1 <= |s|
  {
    if At(s, i) != '{' then (false, i)
    else
      var end := Over(s, i + 1, HexDigit);
      if At(s, end) != '}' then (false, end) else (end > i + 1, end + 1)
  }

  /** `lens_content_token`: up to the brace outside strings, which is left; perhaps nothing. */
  function LensFrom(s: string, i: nat, inString: bool, escape: bool): (r: (Kind, nat))
    requires i <= |s|
    ensures i <= r.1 <= |s| && (r.0 == LensContent || r.0 == Error)
    ensures r.0 == LensContent ==> At(s, r.1) == '}'
    decreases |s| - i
  {
    if i == |s| then (Error, i)
    else if escape then LensFrom(s, i + 1, inString, false)
    else if inString && s[i] == '\\' then LensFrom(s, i + 1, inString, true)
    else
      var inside := if s[i] == '"' then !inString else inString;
      if !inside && s[i] == '}' then (LensContent, i)
      else if s[i] == '\n' then (Error, i)
      else LensFrom(s, i + 1, inside, false)
  }

  /** `sql_body_token`: up to where the column is 1 and the line reads `end sql`. */
  function SqlFrom(s: string, i: nat, column: int): (r: (Kind, nat))
    requires i <= |s|
    ensures i <= r.1 <= |s| && (r.0 == SqlText || r.0 == Error)
    decreases |s| - i
  {
    if i == |s| then (Error, i)
    else if column == 1 && SqlEnd(s, i) then (SqlText, i)
    else SqlFrom(s, i + 1, if s[i] == '\n' then 1 else column + 1)
  }

  /** `number_token`. */
  function NumberFrom(s: string, i: nat): (end: nat)
    requires i < |s| && Digit(s[i])
    ensures i < end <= |s|
  {
    if s[i] == '0' && (At(s, i + 1) == 'x' || At(s, i + 1) == 'X') && HexDigit(At(s, i + 2)) then
      Over(s, i + 2, HexDigit)
    else ExponentFrom(s, FractionFrom(s, Over(s, i + 1, Digit)))
  }

  /** Past a dot and digits, where a digit follows the dot. */
  function FractionFrom(s: string, i: nat): (end: nat)
    requires i <= |s|
    ensures i <= end <= |s|
  {
    if At(s, i) == '.' && Digit(At(s, i + 1)) then Over(s, i + 1, Digit) else i
  }

  /** Past an exponent, where there is a digit for one. */
  function ExponentFrom(s: string, i: nat): (end: nat)
    requires i <= |s|
    ensures i <= end <= |s|
  {
    if At(s, i) != 'e' && At(s, i) != 'E' then i
    else
      var digits := if At(s, i + 1) == '+' || At(s, i + 1) == '-' then i + 2 else i + 1;
      if Digit(At(s, digits)) then Over(s, digits, Digit) else i
  }

  /** What a word is by its text, what stands before it and what follows it. */
  function WordKind(s: string, start: nat, end: nat): (k: Kind)
    requires start < end <= |s|
  {
    var text := s[start..end];
    var word := seq(|text|, i requires 0 <= i < |text| => Lower(text[i]));
    if Reserved(word) && !(start > 0 && s[start - 1] == '.') then Keyword(word)
    else if IsWord(text, "sql") && SqlHead(s, end) then SqlOpen
    else if IsWord(text, "database") && NameAndParenthesis(s, end) then DatabaseOpen
    else if IsWord(text, "window") && NameAndParenthesis(s, end) then WindowOpen
    else Ident
  }

  /** `lexer_in_brace`. */
  predicate InBrace(brackets: seq<char>) {
    0 < |brackets| <= STACK && brackets[|brackets| - 1] == '{'
  }

  /** Where `consider` ends after an `end`; or `i` when it does not follow. */
  function ConsiderAfter(s: string, i: nat): (end: nat)
    requires i <= |s|
    ensures i <= end <= |s|
  {
    var word := Over(s, i, BlankOrCR);
    var end := Over(s, word, WordChar);
    if IsWord(s[word..end], "consider") then end else i
  }

  /** Where the second word of `library.name(` ends; or `i` when there is none. */
  function QualifiedFrom(s: string, i: nat): (end: nat)
    requires i <= |s|
    ensures i <= end <= |s|
  {
    if At(s, i) == '.' && WordStart(At(s, i + 1)) then
      var end := Over(s, i + 1, WordChar);
      if At(s, Over(s, end, BlankOrCR)) == '(' then end else i
    else i
  }

  /** A branch of the innermost `consider` is told by its column; past what is remembered, by `past`. */
  function Branch(kind: Kind, column: int, considers: seq<int>, past: int): Kind {
    var n := |considers|;
    if n == 0 || column != (if n <= STACK then considers[n - 1] else past) then kind
    else if kind == Keyword("if") then ConsiderIf
    else if kind == Keyword("else") then ConsiderElse
    else kind
  }

  /** A word before a colon in an open brace is a record key, and a plain name. */
  function NameOrWord(s: string, word: Kind, end: nat, brackets: seq<char>): Kind
    requires end <= |s|
  {
    if word != Ident && InBrace(brackets) && At(s, Over(s, end, BlankOrCR)) == ':' then Ident else word
  }

  /** `identifier_token`. */
  function WordFrom(s: string, start: nat, column: int, ctx: Context, past: int): (r: Scan)
    requires start < |s|
    ensures r.start == start && start < r.end <= |s| && r.start + r.length == r.end
  {
    var end := Over(s, start + 1, WordChar);
    if IsWord(s[start..end], "end") && ConsiderAfter(s, end) > end then
      Whole(EndConsider, start, ConsiderAfter(s, end))
    else
      var kind := NameOrWord(s, WordKind(s, start, end), end, ctx.brackets);
      if kind == Ident && QualifiedFrom(s, end) > end then Whole(QualifiedIdent, start, QualifiedFrom(s, end))
      else Whole(Branch(kind, column, ctx.considers, past), start, end)
  }

  /** After a `{`: an inline modifier, whose span is the name or phrase, or an open brace. */
  function BraceFrom(s: string, start: nat): (r: Scan)
    requires start < |s|
    ensures start < r.end <= |s| && (r.kind == Open('{') || r.kind.Inline())
  {
    match ModifierAfter(s, start + 1)
    case NoModifier => Whole(Open('{'), start, start + 1)
    case Modifier(from, to, close, names) =>
      Scan(if names then ModifierValue else ModifierPrefix, from, to - from, close + 1)
  }

  /** One or more characters that stand for themselves, or a byte that begins nothing. */
  function SymbolFrom(s: string, start: nat): (r: Scan)
    requires start < |s|
    ensures start < r.end <= |s|
  {
    var c, next := s[start], At(s, start + 1);
    if c == '=' || c == ',' || c == '.' || c == ':' then Whole(Symbol([c]), start, start + 1)
    else if c == '+' || c == '-' || c == '*' || c == '/' || c == '>' then
      if next == '=' then Whole(Symbol([c, '=']), start, start + 2) else Whole(Symbol([c]), start, start + 1)
    else if c == '<' then
      if next == '=' then Whole(Symbol("<="), start, start + 2)
      else if next == '>' then Whole(Error, start, start + 2)
      else Whole(Symbol("<"), start, start + 1)
    else if c == '!' then
      if next == '=' then Whole(Symbol("!="), start, start + 2)
      else if next == '>' || next == '<' then
        if At(s, start + 2) == '=' then Whole(Symbol(['!', next, '=']), start, start + 3)
        else Whole(Symbol(['!', next]), start, start + 2)
      else Whole(Error, start, start + 1)
    else Whole(Error, start, start + 1)
  }

  /** What the byte at `at` begins. */
  function TokenFrom(s: string, at: nat, column: int, ctx: Context, past: int): (r: Scan)
    requires at < |s|
    ensures at < r.end <= |s|
  {
    var c := s[at];
    if c == '\n' then Whole(Newline, at, at + 1)
    else if WordStart(c) then WordFrom(s, at, column, ctx, past)
    else if Digit(c) then Whole(Number, at, NumberFrom(s, at))
    else if c == '"' then (var r := StringFrom(s, at + 1); Whole(r.0, at, r.1))
    else if c == '{' then BraceFrom(s, at)
    else if c == '(' || c == '[' then Whole(Open(c), at, at + 1)
    else if c == ')' || c == ']' || c == '}' then Whole(Closed(c), at, at + 1)
    else SymbolFrom(s, at)
  }

  /* ---- the next token ---- */

  /** Where the next token begins. */
  function StartOf(s: string, st: State): (at: nat)
    requires At?(s, st)
    ensures st.at.off <= at <= |s|
  {
    if st.lens || st.ctx.sql.Due? then st.at.off else Skip(s, st.at.off, st.ctx.brackets != [])
  }

  function ScanFrom(s: string, st: State, past: int): (r: Scan)
    requires At?(s, st)
    ensures StartOf(s, st) <= r.end <= |s|
  {
    var at := StartOf(s, st);
    if st.lens then (var r := LensFrom(s, at, false, false); Whole(r.0, at, r.1))
    else if st.ctx.sql.Due? then (var r := SqlFrom(s, at, st.at.column); Whole(r.0, at, r.1))
    else if at == |s| then Whole(if st.ctx.brackets != [] then Error else Eof, at, at)
    else TokenFrom(s, at, Move(s, st.at, at).column, st.ctx, past)
  }

  function ButLast<T>(s: seq<T>): seq<T> { if s == [] then [] else s[..|s| - 1] }

  /** The context after an error: an SQL body that is not closed is no longer due, and at the end of the text no
      bracket is open. */
  function AfterError(s: string, st: State): Context
    requires At?(s, st)
  {
    if st.lens then st.ctx
    else if st.ctx.sql.Due? then st.ctx.(sql := NotDue)
    else if StartOf(s, st) == |s| then st.ctx.(brackets := [])
    else st.ctx
  }

  /** The context after any other token. */
  function After(ctx: Context, kind: Kind, column: int): Context {
    match kind
    case Open(c) => ctx.(brackets := ctx.brackets + [c])
    case Closed(_) => ctx.(brackets := ButLast(ctx.brackets))
    case EndConsider => ctx.(considers := ButLast(ctx.considers))
    case SqlOpen => ctx.(sql := HeadRead)
    case SqlText => ctx.(sql := NotDue)
    case Newline => if ctx.sql.HeadRead? then ctx.(sql := Due) else ctx
    case Keyword(word) => if word == "consider" then ctx.(considers := ctx.considers + [column]) else ctx
    case _ => ctx
  }

  /** What `lexer_next` answers: the token, where it begins, and the state it leaves. An inline modifier moves the
      column on by the bytes from its brace on, which counts the brace again. */
  datatype Answer = Answer(token: Token, begin: nat, state: State)

  function Next(s: string, st: State, past: int): (r: Answer)
    requires At?(s, st)
    ensures At?(s, r.state)
  {
    var at := StartOf(s, st);
    var begin := Move(s, st.at, at);
    var scan := ScanFrom(s, st, past);
    var end := Move(s, begin, scan.end);
    Answer(Token(scan.kind, scan.start, scan.length, begin.line, begin.column), at,
           State(if scan.kind.Inline() then end.(column := end.column + 1) else end, false,
                 if scan.kind.Error? then AfterError(s, st) else After(st.ctx, scan.kind, begin.column)))
  }

  /** `lexer_init_at`: a byte order mark is passed over. */
  function Start(s: string, first: int): (st: State)
    ensures At?(s, st)
  {
    var mark := |s| >= 3 && s[0] as int == 0xEF && s[1] as int == 0xBB && s[2] as int == 0xBF;
    State(Place(if mark then 3 else 0, first, 1), false, Context([], [], NotDue))
  }

  /* ---- whole texts ---- */

  /** What every token but the last makes smaller. */
  function Measure(s: string, st: State): (m: nat)
    requires At?(s, st)
  {
    2 * (|s| - st.at.off) + (if st.lens then 1 else 0) + if st.ctx.sql.Due? then 1 else 0
  }

  /** What the parser asks before a token: `lexer_begin_lens_content`, or nothing. */
  function Asked(st: State, asks: seq<bool>): State {
    if asks != [] && asks[0] then st.(lens := true) else st
  }

  lemma NextFalls(s: string, st: State, past: int)
    requires At?(s, st)
    ensures var r := Next(s, st, past); r.token.kind.Last() || Measure(s, r.state) < Measure(s, st)
  {
    hide Move, Skip, SqlFrom, LensFrom, TokenFrom;
  }

  /** The tokens of a text, to its end or the first error; before each the parser may ask for the content of a
      lens, as `asks` says. `past` is what a read past the remembered columns would find, call by call. */
  function Lex(s: string, st: State, asks: seq<bool>, past: nat -> int, call: nat): (r: seq<Answer>)
    requires At?(s, st)
    ensures r != [] && r[|r| - 1].token.kind.Last()
    decreases Measure(s, st) + 2 * |asks|
  {
    var now := Asked(st, asks);
    var a := Next(s, now, past(call));
    NextFalls(s, now, past(call));
    if a.token.kind.Last() then [a] else [a] + Lex(s, a.state, Later(asks), past, call + 1)
  }
}
