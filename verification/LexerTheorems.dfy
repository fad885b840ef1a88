/**
  What holds of every token of every text (`src/lexer.c`).  Lines are always right.  Columns are right up to the
  first inline modifier on a line; each one puts the rest of its line one column further off.
*/
module LexerTheorems {
  import opened Chars
  import opened LexerText
  import opened LexerSpec
  import opened LexerStrings
  import opened Wrappers

  /* ---- progress ---- */

  /** Twice the bytes left, and one for an SQL body that is due. */
  function BytesAndBody(s: string, st: State): nat
    requires At?(s, st)
  {
    2 * (|s| - st.at.off) + if st.ctx.sql.Due? then 1 else 0
  }

  /** Every token but the last makes that smaller if and only if it is not the empty content of a lens. */
  lemma FallsUnlessEmptyLens(s: string, st: State, past: int)
    requires At?(s, st) && !Next(s, st, past).token.kind.Last()
    ensures BytesAndBody(s, Next(s, st, past).state) < BytesAndBody(s, st) <==> !(st.lens && At(s, st.at.off) == '}')
  {
    hide Move, Skip, SqlFrom, TokenFrom;
    if st.lens {
      LensMoves(s, st.at.off);
    }
  }

  lemma LensMoves(s: string, i: nat)
    requires i <= |s|
    ensures var r := LensFrom(s, i, false, false);
      r.0 == LensContent ==> (r.1 == i <==> At(s, i) == '}')
  {
  }

  /** A lens asked for right before a brace has no content: the token takes nothing. */
  lemma EmptyLens()
    ensures var st := State(Place(0, 1, 1), true, Context([], [], NotDue));
      var r := Next("}", st, 0);
      r.token == Token(LensContent, 0, 0, 1, 1) && BytesAndBody("}", r.state) == BytesAndBody("}", st)
  {
  }

  /* ---- what a token's text is ---- */

  predicate Word(text: string) {
    text != "" && WordStart(text[0]) && forall k :: 0 <= k < |text| ==> WordChar(text[k])
  }

  /** `= , . : + - * / < >`, those of them that `=` may follow, and `!` before `=`, `<`, `>`, `<=`, `>=`. */
  predicate IsSymbol(t: string) {
    || (|t| == 1 && (t[0] == '=' || t[0] == ',' || t[0] == '.' || t[0] == ':' || Doubles(t[0])))
    || (|t| == 2 && t[1] == '=' && (Doubles(t[0]) || t[0] == '!'))
    || (2 <= |t| <= 3 && t[0] == '!' && (t[1] == '<' || t[1] == '>') && (|t| == 3 ==> t[2] == '='))
  }

  predicate Doubles(c: char) { c == '+' || c == '-' || c == '*' || c == '/' || c == '<' || c == '>' }

  /** The text of a token is one that its kind can have. */
  predicate Spelled(kind: Kind, text: string) {
    match kind
    case Eof => text == ""
    case Newline => text == "\n"
    case Ident => Word(text)
    case QualifiedIdent => exists i :: 0 < i < |text| && text[i] == '.' && Word(text[..i]) && Word(text[i + 1..])
    case Number => HexNumber(text) || NumberText.Problem(text, false) == NumberText.Fine
    case StringLit => |text| >= 2 && text[0] == '"' && text[|text| - 1] == '"'
    case Keyword(word) => Reserved(word) && IsWord(text, word)
    case EndConsider => |text| >= 11 && IsWord(text[..3], "end") && IsWord(text[|text| - 8..], "consider")
    case ConsiderIf => IsWord(text, "if")
    case ConsiderElse => IsWord(text, "else")
    case WindowOpen => IsWord(text, "window")
    case DatabaseOpen => IsWord(text, "database")
    case SqlOpen => IsWord(text, "sql")
    case Symbol(t) => text == t && IsSymbol(t)
    case Open(c) => text == [c] && (c == '(' || c == '[' || c == '{')
    case Closed(c) => text == [c] && (c == ')' || c == ']' || c == '}')
    case LensContent => true
    case SqlText => true
    case ModifierPrefix => true
    case ModifierValue => true
    case Error => true
  }

  lemma IsAWord(s: string, start: nat, end: nat)
    requires start < end <= |s| && WordStart(s[start]) && forall k :: start < k < end ==> WordChar(s[k])
    ensures Word(s[start..end])
  {
    assert forall k :: 0 <= k < end - start ==> s[start..end][k] == s[start + k];
  }

  lemma QualifiedSpelled(s: string, start: nat, dot: nat)
    requires start < dot <= |s| && Word(s[start..dot]) && QualifiedFrom(s, dot) > dot
    ensures Spelled(QualifiedIdent, s[start..QualifiedFrom(s, dot)])
  {
    var end := QualifiedFrom(s, dot);
    IsAWord(s, dot + 1, end);
    var text, i := s[start..end], dot - start;
    assert text[..i] == s[start..dot] && text[i + 1..] == s[dot + 1..end];
  }

  lemma EndConsiderSpelled(s: string, start: nat, a: nat)
    requires start <= a <= |s| && IsWord(s[start..a], "end") && ConsiderAfter(s, a) > a
    ensures Spelled(EndConsider, s[start..ConsiderAfter(s, a)])
  {
    var word, end := Over(s, a, BlankOrCR), ConsiderAfter(s, a);
    hide Over;
    var text := s[start..end];
    assert text[..3] == s[start..a] && text[|text| - 8..] == s[word..end];
  }

  lemma WordKindSpelled(s: string, start: nat, end: nat)
    requires start < end <= |s| && Word(s[start..end])
    ensures Spelled(WordKind(s, start, end), s[start..end])
    ensures var k := WordKind(s, start, end);
      k == Ident || k.Keyword? || k == SqlOpen || k == WindowOpen || k == DatabaseOpen
  {
    hide Word, Reserved, SqlHead, NameAndParenthesis;
  }

  lemma BranchSpelled(kind: Kind, column: int, considers: seq<int>, past: int, text: string)
    requires Spelled(kind, text)
    ensures Spelled(Branch(kind, column, considers, past), text)
  {
    hide Reserved, IsWord;
  }

  lemma WordSpelled(s: string, start: nat, column: int, ctx: Context, past: int)
    requires start < |s| && WordStart(s[start])
    ensures var r := WordFrom(s, start, column, ctx, past); Spelled(r.kind, s[start..r.end])
  {
    var end := Over(s, start + 1, WordChar);
    IsAWord(s, start, end);
    assert Spelled(Ident, s[start..end]);
    WordKindSpelled(s, start, end);
    if IsWord(s[start..end], "end") && ConsiderAfter(s, end) > end {
      EndConsiderSpelled(s, start, end);
    }
    if QualifiedFrom(s, end) > end {
      QualifiedSpelled(s, start, end);
    }
    hide Spelled, WordKind, QualifiedFrom, ConsiderAfter, Over, IsWord, Branch, NameOrWord;
    NameOrWordIff(s, WordKind(s, start, end), end, ctx.brackets);
    BranchSpelled(NameOrWord(s, WordKind(s, start, end), end, ctx.brackets), column, ctx.considers, past, s[start..end]);
  }

  /* ---- numbers ---- */

  /** A literal of the lexer: `0x` and digits of base sixteen, or digits, perhaps a fraction with a digit at
      least, perhaps an exponent with one. */
  ghost predicate Literal(s: string, i: nat, j: nat) {
    i < j <= |s| && (HexNumber(s[i..j]) || exists a, b, e :: DecimalParts(s, i, a, b, e, j))
  }

  ghost predicate DecimalParts(s: string, i: nat, a: nat, b: nat, e: nat, j: nat) {
    && i < a <= b <= j <= |s| && (forall k :: i <= k < a ==> Digit(s[k]))
    && (a < b ==> IsFraction(s, a, b) && a + 1 < b)
    && (b < j ==> IsPower(s, b, e, j))
  }

  lemma HexIs(s: string, i: nat, j: nat)
    requires i < j <= |s|
    ensures HexNumber(s[i..j]) <==>
      (j - i >= 3 && s[i] == '0' && (s[i + 1] == 'x' || s[i + 1] == 'X') && forall k :: i + 2 <= k < j ==> HexDigit(s[k]))
  {
    var t := s[i..j];
    assert forall k :: 0 <= k < |t| ==> t[k] == s[i + k];
    if HexNumber(t) {
      forall k | i + 2 <= k < j ensures HexDigit(s[k]) {
        assert t[k - i] == s[k];
      }
    }
  }

  /** The exponent's digits start where its letter, or its sign, ends. */
  function PowerDigits(s: string, b: nat): nat {
    if At(s, b + 1) == '+' || At(s, b + 1) == '-' then b + 2 else b + 1
  }

  lemma NumberIsLiteral(s: string, i: nat)
    requires i < |s| && Digit(s[i])
    ensures Literal(s, i, NumberFrom(s, i))
    ensures Spelled(Number, s[i..NumberFrom(s, i)])
  {
    var end := NumberFrom(s, i);
    HexIs(s, i, end);
    hide HexNumber, NumberText.Problem;
    if !HexNumber(s[i..end]) {
      var a := Over(s, i + 1, Digit);
      var b := FractionFrom(s, a);
      var e := PowerDigits(s, b);
      assert DecimalParts(s, i, a, b, e, end);
      NumberLexeme(s, i, a, b, e, end);
    }
  }

  lemma DecimalEnds(s: string, i: nat, a: nat, b: nat, e: nat, j: nat)
    requires DecimalParts(s, i, a, b, e, j)
    ensures j <= ExponentFrom(s, FractionFrom(s, Over(s, i + 1, Digit)))
  {
    var a', b' := Over(s, i + 1, Digit), FractionFrom(s, Over(s, i + 1, Digit));
    assert a <= a';
    if a < a' {
      assert Digit(s[a]);
      assert a == j;
    } else if b < b' {
      assert Digit(s[a + 1]);
      assert a < b ==> Digit(s[b]);
      assert b == j;
    } else {
      assert b == b';
      if b < j {
        assert e == PowerDigits(s, b) && Digit(s[e]);
      }
    }
  }

  /** A number token is the longest literal that begins where it begins. */
  lemma NumberIsLongest(s: string, i: nat, j: nat)
    requires i < |s| && Digit(s[i]) && Literal(s, i, j)
    ensures j <= NumberFrom(s, i)
  {
    HexIs(s, i, j);
    if HexNumber(s[i..j]) {
      assert HexDigit(s[i + 2]);
    } else {
      var a, b, e :| DecimalParts(s, i, a, b, e, j);
      DecimalEnds(s, i, a, b, e, j);
      if s[i] == '0' && (At(s, i + 1) == 'x' || At(s, i + 1) == 'X') && HexDigit(At(s, i + 2)) {
        assert Over(s, i + 1, Digit) == i + 1 && FractionFrom(s, i + 1) == i + 1;
      }
    }
  }

  /* ---- words, symbols and errors ---- */

  ghost predicate IsReserved(text: string) { exists w :: Reserved(w) && IsWord(text, w) }

  lemma WordKindIff(s: string, start: nat, end: nat)
    requires start < end <= |s|
    ensures WordKind(s, start, end).Keyword? <==>
      IsReserved(s[start..end]) && !(start > 0 && s[start - 1] == '.')
    ensures var k := WordKind(s, start, end);
      k == Ident || k.Keyword? || k == SqlOpen || k == WindowOpen || k == DatabaseOpen
  {
    ReservedIff(s[start..end]);
    hide Reserved, SqlHead, NameAndParenthesis, IsWord;
  }

  /** Choosing a branch only ever turns an `if` or an `else`. */
  lemma BranchKinds(word: Kind, column: int, considers: seq<int>, past: int)
    ensures var k := Branch(word, column, considers, past);
      k == word || ((k == ConsiderIf || k == ConsiderElse) && (word == Keyword("if") || word == Keyword("else")))
  {
  }

  predicate OfKeyword(k: Kind) { k.Keyword? || k.ConsiderIf? || k.ConsiderElse? || k.EndConsider? }

  /** `end` before `consider`; or a reserved word after no dot that is not the key of a record. */
  ghost predicate MeansKeyword(s: string, start: nat, end: nat, brackets: seq<char>)
    requires start < end <= |s|
  {
    && IsReserved(s[start..end])
    && ((IsWord(s[start..end], "end") && ConsiderAfter(s, end) > end)
        || (!(start > 0 && s[start - 1] == '.') && !(InBrace(brackets) && At(s, Over(s, end, BlankOrCR)) == ':')))
  }

  /** A word is a keyword exactly when it is reserved, stands after no dot, and is not the key of a record. */
  lemma KeywordIff(s: string, start: nat, column: int, ctx: Context, past: int)
    requires start < |s| && WordStart(s[start])
    ensures OfKeyword(WordFrom(s, start, column, ctx, past).kind)
      <==> MeansKeyword(s, start, Over(s, start + 1, WordChar), ctx.brackets)
  {
    hide Reserved, WordKind, QualifiedFrom, ConsiderAfter, Over, InBrace, Branch, IsWord, IsReserved, NameOrWord;
    var end := Over(s, start + 1, WordChar);
    var word := WordKind(s, start, end);
    WordKindIff(s, start, end);
    EndIsReserved(s[start..end]);
    NameOrWordIff(s, word, end, ctx.brackets);
    BranchKinds(NameOrWord(s, word, end, ctx.brackets), column, ctx.considers, past);
  }

  lemma NameOrWordIff(s: string, word: Kind, end: nat, brackets: seq<char>)
    requires end <= |s|
    ensures var k := NameOrWord(s, word, end, brackets);
      (k == word || k == Ident)
      && (k.Keyword? <==> word.Keyword? && !(InBrace(brackets) && At(s, Over(s, end, BlankOrCR)) == ':'))
  {
    hide InBrace, Over;
  }

  lemma EndIsReserved(text: string)
    ensures IsWord(text, "end") ==> IsReserved(text)
  {
    assert Reserved("end");
  }

  lemma ReservedIff(text: string)
    ensures var word := seq(|text|, i requires 0 <= i < |text| => Lower(text[i]));
      Reserved(word) <==> exists w :: Reserved(w) && IsWord(text, w)
  {
    var word := seq(|text|, i requires 0 <= i < |text| => Lower(text[i]));
    hide Reserved;
    assert IsWord(text, word);
    forall w | IsWord(text, w) ensures w == word {
    }
  }

  predicate Begins(c: char) {
    || c == '\n' || WordStart(c) || Digit(c) || c == '"' || c == '{' || c == '(' || c == '[' || c == ')' || c == ']'
    || c == '}' || c == '=' || c == ',' || c == '.' || c == ':' || c == '+' || c == '-' || c == '*' || c == '/'
    || c == '<' || c == '>' || c == '!'
  }

  /** What begins no token: a quote that no good end follows, `<>`, a `!` alone, and a byte that begins nothing. */
  ghost predicate BeginsNothing(s: string, at: nat)
    requires at < |s|
  {
    || (s[at] == '"' && !HasGoodEnd(s, at + 1))
    || (s[at] == '<' && At(s, at + 1) == '>')
    || (s[at] == '!' && At(s, at + 1) != '=' && At(s, at + 1) != '<' && At(s, at + 1) != '>')
    || !Begins(s[at])
  }

  /** An error is answered for these and for nothing else. */
  lemma ErrorIff(s: string, at: nat, column: int, ctx: Context, past: int)
    requires at < |s|
    ensures TokenFrom(s, at, column, ctx, past).kind == Error <==> BeginsNothing(s, at)
  {
    StringIff(s, at + 1);
    hide WordFrom, NumberFrom, StringFrom, BraceFrom, HasGoodEnd;
    if WordStart(s[at]) {
      WordIsNoError(s, at, column, ctx, past);
    }
  }

  lemma WordIsNoError(s: string, at: nat, column: int, ctx: Context, past: int)
    requires at < |s| && WordStart(s[at])
    ensures var k := WordFrom(s, at, column, ctx, past).kind;
      !k.Error? && !k.Inline() && !k.LensContent? && !k.SqlText? && !k.Last() && !k.Newline?
  {
    var end := Over(s, at + 1, WordChar);
    IsAWord(s, at, end);
    WordKindSpelled(s, at, end);
    hide WordKind, QualifiedFrom, ConsiderAfter, Over, IsWord, Spelled, Branch, Word, NameOrWord, Reserved;
    var named := NameOrWord(s, WordKind(s, at, end), end, ctx.brackets);
    var k := WordFrom(s, at, column, ctx, past).kind;
    assert k == EndConsider || k == QualifiedIdent || k == Branch(named, column, ctx.considers, past);
    hide *;
    NameOrWordIff(s, WordKind(s, at, end), end, ctx.brackets);
    BranchKinds(named, column, ctx.considers, past);
  }

  lemma SymbolIsItsText(s: string, at: nat)
    requires at < |s|
    ensures var r := SymbolFrom(s, at);
      && r.start == at && at + r.length == r.end
      && (r.kind.Error? || (r.kind.Symbol? && r.kind.text == s[at..r.end] && IsSymbol(r.kind.text)))
  {
    assert s[at..at + 1] == [s[at]];
    if at + 2 <= |s| {
      assert s[at..at + 2] == [s[at], s[at + 1]];
    }
    if at + 3 <= |s| {
      assert s[at..at + 3] == [s[at], s[at + 1], s[at + 2]];
    }
  }

  lemma SymbolSpelled(s: string, at: nat)
    requires at < |s|
    ensures var r := SymbolFrom(s, at);
      Spelled(r.kind, s[at..r.end]) && (r.kind.Symbol? || r.kind.Error?) && r.start == at && at + r.length == r.end
  {
    SymbolIsItsText(s, at);
    Spelling();
    hide SymbolFrom, Spelled, IsSymbol;
  }

  lemma Spelling()
    ensures forall t :: IsSymbol(t) ==> Spelled(Symbol(t), t)
    ensures forall t :: Spelled(Error, t) && Spelled(LensContent, t) && Spelled(SqlText, t)
    ensures Spelled(Eof, "")
  {
    hide IsSymbol;
  }

  /* ---- SQL bodies ---- */

  /** Whether a line starts at `j`, for a reader that stood in column `column` at `i`. */
  predicate LineStart(s: string, i: nat, column: int, j: nat)
    requires j <= |s|
  {
    if j <= i then column == 1 else s[j - 1] == '\n'
  }

  /** An SQL body ends at the first line that reads `end sql`, and is an error when there is none. */
  lemma {:induction false} SqlBodyIsFirst(s: string, i: nat, column: int)
    requires i <= |s| && column >= 1
    ensures var r := SqlFrom(s, i, column);
      && (forall j :: i <= j < r.1 ==> !(LineStart(s, i, column, j) && SqlEnd(s, j)))
      && (r.0 == SqlText ==> r.1 < |s| && LineStart(s, i, column, r.1) && SqlEnd(s, r.1))
      && (r.0 == Error ==> r.1 == |s|)
    decreases |s| - i
  {
    hide SqlEnd;
    if i < |s| && !(column == 1 && SqlEnd(s, i)) {
      var next := if s[i] == '\n' then 1 else column + 1;
      SqlBodyIsFirst(s, i + 1, next);
      forall j | i < j <= |s| ensures LineStart(s, i, column, j) == LineStart(s, i + 1, next, j) {
      }
    }
  }

  /* ---- one token of a run ---- */

  /** The kinds that are read where no lens and no SQL body is due. */
  predicate Ordinary(kind: Kind) { !kind.LensContent? && !kind.SqlText? }

  /** A token spells its text, or as an inline modifier lies inside its braces. */
  predicate Spans(s: string, scan: Scan, at: nat) {
    && at <= scan.end <= |s|
    && if scan.kind.Inline() then
         at < scan.start && scan.start + scan.length < scan.end && s[at] == '{' && s[scan.end - 1] == '}'
         && Breaks(s, at, scan.end) == 0
       else scan.start == at && at + scan.length == scan.end && Spelled(scan.kind, s[at..scan.end])
  }

  /** A scan is an inline modifier exactly when what follows its brace says so. */
  predicate InlineRight(s: string, kind: Kind, at: nat)
    requires at < |s|
  {
    kind.Inline() <==> s[at] == '{' && ModifierAfter(s, at + 1).Modifier?
  }

  lemma ModifierSpans(s: string, at: nat, m: Modifier)
    requires at < |s| && s[at] == '{' && m == ModifierAfter(s, at + 1) && m.Modifier?
    ensures Spans(s, BraceFrom(s, at), at) && BraceFrom(s, at).kind.Inline()
  {
    NoBreaks(s, at, m.close + 1);
    hide ModifierAfter, Breaks;
  }

  lemma BraceSpans(s: string, at: nat)
    requires at < |s| && s[at] == '{'
    ensures Spans(s, BraceFrom(s, at), at) && InlineRight(s, BraceFrom(s, at).kind, at)
  {
    var m := ModifierAfter(s, at + 1);
    if m.Modifier? {
      ModifierSpans(s, at, m);
    } else {
      hide ModifierAfter, Breaks;
      assert s[at..at + 1] == ['{'];
    }
  }

  lemma TokenSpans(s: string, at: nat, column: int, ctx: Context, past: int)
    requires at < |s|
    ensures var r := TokenFrom(s, at, column, ctx, past);
      && Spans(s, r, at) && Ordinary(r.kind) && !r.kind.Eof? && InlineRight(s, r.kind, at)
      && (r.kind.Newline? ==> s[at] == '\n')
  {
    var c := s[at];
    hide WordFrom, NumberFrom, StringFrom, BraceFrom, SymbolFrom, ModifierAfter, Breaks;
    if WordStart(c) {
      WordSpelled(s, at, column, ctx, past);
      WordIsNoError(s, at, column, ctx, past);
      hide Spelled;
    } else if Digit(c) {
      NumberIsLiteral(s, at);
      hide Spelled;
    } else if c == '"' {
      StringSpelled(s, at);
      hide Spelled;
    } else if c == '{' {
      BraceSpans(s, at);
      hide Spelled, Spans;
    } else if c == '\n' || c == '(' || c == '[' || c == ')' || c == ']' || c == '}' {
      assert s[at..at + 1] == [c];
    } else {
      SymbolSpelled(s, at);
      hide Spelled;
    }
  }

  lemma StringSpelled(s: string, at: nat)
    requires at < |s| && s[at] == '"'
    ensures var r := StringFrom(s, at + 1); Spelled(r.0, s[at..r.1])
  {
    hide StringFrom;
  }

  /** A scan at `at` follows what was read up to `from`, with `depth` brackets open. */
  ghost predicate Fitting(s: string, r: Scan, at: nat, from: nat, depth: nat) {
    && from <= at <= |s| && Spans(s, r, at)
    && (Ordinary(r.kind) && !r.kind.Error? ==> at == Skip(s, from, depth > 0) && (at < |s| ==> InlineRight(s, r.kind, at)))
    && (!Ordinary(r.kind) ==> at == from)
    && (r.kind.Newline? ==> depth == 0)
    && (r.kind.Eof? ==> at == |s| && depth == 0)
  }

  lemma ScanFits(s: string, st: State, past: int)
    requires At?(s, st)
    ensures Fitting(s, ScanFrom(s, st, past), StartOf(s, st), st.at.off, |st.ctx.brackets|)
  {
    var at := StartOf(s, st);
    hide Move, LensFrom, SqlFrom, TokenFrom, ModifierAfter, Breaks, Spelled, Skip, Spans;
    if st.lens || st.ctx.sql.Due? {
      var r := ScanFrom(s, st, past);
      WholeSpans(s, r.kind, at, r.end);
    } else if at < |s| {
      TokenSpans(s, at, Move(s, st.at, at).column, st.ctx, past);
      if st.ctx.brackets != [] {
        NoBreakInBrackets(s, st);
      }
    } else {
      WholeSpans(s, if st.ctx.brackets != [] then Error else Eof, at, at);
    }
  }

  lemma WholeSpans(s: string, kind: Kind, at: nat, end: nat)
    requires at <= end <= |s| && (kind.Error? || kind.LensContent? || kind.SqlText? || (kind.Eof? && at == end))
    ensures Spans(s, Whole(kind, at, end), at)
  {
    assert at == end ==> s[at..end] == "";
  }

  lemma NoBreakInBrackets(s: string, st: State)
    requires At?(s, st) && !st.lens && !st.ctx.sql.Due? && StartOf(s, st) < |s| && st.ctx.brackets != []
    ensures s[StartOf(s, st)] != '\n'
  {
  }

  /* ---- whole runs ---- */

  /** The inline modifiers among the tokens, on the line that `off` is on. */
  function InlineBefore(s: string, all: seq<Answer>, off: nat): nat
    requires off <= |s|
  {
    if all == [] then 0
    else
      var n := |all| - 1;
      InlineBefore(s, all[..n], off) + if all[n].token.kind.Inline() && Breaks(s, all[n].begin, off) == 0 then 1 else 0
  }

  /** The bracket depth that the tokens leave. */
  function Depth(all: seq<Answer>): nat {
    if all == [] then 0
    else
      var before := Depth(all[..|all| - 1]);
      match all[|all| - 1].token.kind
      case Open(_) => before + 1
      case Closed(_) => if before > 0 then before - 1 else 0
      case _ => before
  }

  /** What holds of a token of a run that began at `base`, given those before it. */
  ghost predicate Right(s: string, base: nat, first: int, before: seq<Answer>, a: Answer) {
    var t, begin, from := a.token, a.begin, if before == [] then base else before[|before| - 1].state.at.off;
    && from <= begin <= a.state.at.off <= |s|
    && t.line == first + Breaks(s, base, begin)
    && t.column == 1 + SinceBreak(s, base, begin) + InlineBefore(s, before, begin)
    && Fitting(s, Scan(t.kind, t.start, t.length, a.state.at.off), begin, from, Depth(before))
  }

  ghost predicate RightAt(s: string, base: nat, first: int, all: seq<Answer>, i: nat)
    requires i < |all|
  {
    Right(s, base, first, all[..i], all[i])
  }

  /** What is kept along a run: the tokens so far, and the state they leave. */
  ghost predicate Kept(s: string, base: nat, first: int, done: seq<Answer>, st: State) {
    && base <= st.at.off <= |s|
    && st.at.off == (if done == [] then base else done[|done| - 1].state.at.off)
    && st.at.line == first + Breaks(s, base, st.at.off)
    && st.at.column == 1 + SinceBreak(s, base, st.at.off) + InlineBefore(s, done, st.at.off)
    && |st.ctx.brackets| == Depth(done)
    && forall i :: 0 <= i < |done| ==> done[i].begin <= st.at.off
  }

  lemma {:induction false} InlineCarried(s: string, all: seq<Answer>, a: nat, b: nat)
    requires a <= b <= |s| && forall i :: 0 <= i < |all| ==> all[i].begin <= a
    ensures InlineBefore(s, all, b) == Carried(s, InlineBefore(s, all, a), a, b)
    decreases |all|
  {
    if all != [] {
      var n := |all| - 1;
      BreaksAdd(s, all[n].begin, a, b);
      InlineCarried(s, all[..n], a, b);
    }
  }

  /** Moving on keeps line and column as right as they were. */
  lemma MoveKeeps(s: string, base: nat, p: Place, to: nat)
    requires base <= p.off <= to <= |s|
    ensures var q := Move(s, p, to);
      && q.line - Breaks(s, base, to) == p.line - Breaks(s, base, p.off)
      && q.column - 1 - SinceBreak(s, base, to) == Carried(s, p.column - 1 - SinceBreak(s, base, p.off), p.off, to)
  {
    BreaksAdd(s, base, p.off, to);
    if Breaks(s, p.off, to) == 0 {
      OnOneLine(s, base, p.off, to);
    } else {
      SinceBreakFrom(s, base, p.off, to);
    }
  }

  /** Lines and columns, before a token and after it. */
  lemma NextIsPlaced(s: string, base: nat, first: int, done: seq<Answer>, st: State, past: int)
    requires Kept(s, base, first, done, st) && At?(s, st)
    ensures var a, scan := Next(s, st, past), ScanFrom(s, st, past);
      && a.state.at.off == scan.end
      && a.token.line == first + Breaks(s, base, a.begin)
      && a.token.column == 1 + SinceBreak(s, base, a.begin) + InlineBefore(s, done, a.begin)
      && a.state.at.line == first + Breaks(s, base, scan.end)
      && a.state.at.column == 1 + SinceBreak(s, base, scan.end) + InlineBefore(s, done, scan.end)
                              + if scan.kind.Inline() then 1 else 0
  {
    var at, scan := StartOf(s, st), ScanFrom(s, st, past);
    MoveKeeps(s, base, st.at, at);
    MoveKeeps(s, base, Move(s, st.at, at), scan.end);
    InlineCarried(s, done, st.at.off, at);
    InlineCarried(s, done, at, scan.end);
    hide Move, ScanFrom, StartOf, Breaks, SinceBreak, Carried, InlineBefore, Depth, After, AfterError;
  }

  lemma DepthOneMore(s: string, done: seq<Answer>, st: State, past: int)
    requires At?(s, st) && |st.ctx.brackets| == Depth(done) && !Next(s, st, past).token.kind.Last()
    ensures var a := Next(s, st, past); |a.state.ctx.brackets| == Depth(done + [a])
  {
    hide Move, ScanFrom, StartOf;
    var a := Next(s, st, past);
    assert (done + [a])[..|done|] == done;
  }

  lemma NextIsRight(s: string, base: nat, first: int, done: seq<Answer>, st: State, past: int)
    requires Kept(s, base, first, done, st) && At?(s, st)
    ensures var a := Next(s, st, past);
      && RightAt(s, base, first, done + [a], |done|)
      && (!a.token.kind.Last() ==> Kept(s, base, first, done + [a], a.state))
  {
    var a := Next(s, st, past);
    ScanFits(s, st, past);
    NextIsPlaced(s, base, first, done, st, past);
    InlineOneMore(s, done, a, a.state.at.off);
    if !a.token.kind.Last() {
      DepthOneMore(s, done, st, past);
    }
    assert (done + [a])[..|done|] == done;
    InlineOnItsLine(s, ScanFrom(s, st, past), a.begin, st.at.off, Depth(done));
    hide Move, ScanFrom, StartOf, Fitting, Breaks, SinceBreak, InlineBefore, Depth, After, AfterError;
  }

  lemma InlineOnItsLine(s: string, r: Scan, at: nat, from: nat, depth: nat)
    requires Fitting(s, r, at, from, depth)
    ensures from <= at <= r.end <= |s| && (r.kind.Inline() ==> Breaks(s, at, r.end) == 0)
  {
    hide Spelled, Skip, Breaks;
  }

  lemma InlineOneMore(s: string, done: seq<Answer>, a: Answer, off: nat)
    requires off <= |s|
    ensures InlineBefore(s, done + [a], off) == InlineBefore(s, done, off)
      + if a.token.kind.Inline() && Breaks(s, a.begin, off) == 0 then 1 else 0
  {
    assert (done + [a])[..|done|] == done;
  }

  ghost predicate AllRight(s: string, base: nat, first: int, all: seq<Answer>, from: nat) {
    forall i :: from <= i < |all| ==> RightAt(s, base, first, all, i)
  }

  lemma {:induction false} RunIsRight(s: string, base: nat, first: int, done: seq<Answer>, st: State, asks: seq<bool>, past: nat -> int, call: nat)
    requires Kept(s, base, first, done, st) && At?(s, st)
    ensures AllRight(s, base, first, done + Lex(s, st, asks, past, call), |done|)
    decreases Measure(s, st) + 2 * |asks|
  {
    hide RightAt, Kept, Next;
    var now := Asked(st, asks);
    AskedIsKept(s, base, first, done, st, asks);
    NextIsRight(s, base, first, done, now, past(call));
    NextFalls(s, now, past(call));
    var a := Next(s, now, past(call));
    if !a.token.kind.Last() {
      RunIsRight(s, base, first, done + [a], a.state, Later(asks), past, call + 1);
      var more := Lex(s, a.state, Later(asks), past, call + 1);
      assert done + ([a] + more) == (done + [a]) + more;
      hide Lex;
      SameSoFar(s, base, first, done + [a], more, |done|);
    }
  }

  lemma AskedIsKept(s: string, base: nat, first: int, done: seq<Answer>, st: State, asks: seq<bool>)
    requires Kept(s, base, first, done, st)
    ensures Kept(s, base, first, done, Asked(st, asks))
  {
  }

  /** What holds of a token depends on those before it alone. */
  lemma SameSoFar(s: string, base: nat, first: int, all: seq<Answer>, more: seq<Answer>, i: nat)
    requires i < |all| && RightAt(s, base, first, all, i)
    ensures RightAt(s, base, first, all + more, i)
  {
    hide Right;
    assert (all + more)[..i] == all[..i] && (all + more)[i] == all[i];
  }

  /** Every token of every text, from its start on: its line is exact; its column is off by the inline modifiers
      before it on its line; it spells its text and follows the token before it by blanks and comments only; a
      NEWLINE stands only where every bracket is closed. */
  lemma EveryTokenIsRight(s: string, first: int, asks: seq<bool>, past: nat -> int)
    ensures var all := Lex(s, Start(s, first), asks, past, 0);
      AllRight(s, Start(s, first).at.off, first, all, 0)
  {
    hide *;
    var st := Start(s, first);
    StartIsKept(s, first);
    RunIsRight(s, st.at.off, first, [], st, asks, past, 0);
    var all := Lex(s, st, asks, past, 0);
    assert [] + all == all;
  }

  lemma StartIsKept(s: string, first: int)
    ensures var st := Start(s, first); Kept(s, st.at.off, first, [], st)
  {
  }

  lemma {:induction false} InlineIffSome(s: string, all: seq<Answer>, off: nat)
    requires off <= |s|
    ensures InlineBefore(s, all, off) > 0 <==>
      exists j :: 0 <= j < |all| && all[j].token.kind.Inline() && Breaks(s, all[j].begin, off) == 0
  {
    if all != [] {
      var n := |all| - 1;
      InlineIffSome(s, all[..n], off);
      if j :| 0 <= j < n && all[j].token.kind.Inline() && Breaks(s, all[j].begin, off) == 0 {
        assert all[..n][j].token.kind.Inline() && Breaks(s, all[..n][j].begin, off) == 0;
      }
    }
  }

  ghost predicate OnlyLast(all: seq<Answer>) {
    forall i :: 0 <= i < |all| - 1 ==> !all[i].token.kind.Last()
  }

  lemma {:induction false} OnlyTheLastIsLast(s: string, st: State, asks: seq<bool>, past: nat -> int, call: nat)
    requires At?(s, st)
    ensures OnlyLast(Lex(s, st, asks, past, call))
    decreases Measure(s, st) + 2 * |asks|
  {
    hide Next;
    var now := Asked(st, asks);
    NextFalls(s, now, past(call));
    var a := Next(s, now, past(call));
    if !a.token.kind.Last() {
      OnlyTheLastIsLast(s, a.state, Later(asks), past, call + 1);
      var more := Lex(s, a.state, Later(asks), past, call + 1);
      assert forall i :: 1 <= i < |[a] + more| ==> ([a] + more)[i] == more[i - 1];
    }
  }

  /** The text has an inline modifier where a token that is no lens content or SQL body begins. */
  predicate ModifierAt(s: string, a: Answer) {
    Ordinary(a.token.kind) && a.begin < |s| && s[a.begin] == '{' && ModifierAfter(s, a.begin + 1).Modifier?
  }

  lemma InlineIsModifierAt(s: string, base: nat, first: int, all: seq<Answer>, j: nat)
    requires j < |all| && RightAt(s, base, first, all, j) && !all[j].token.kind.Last()
    ensures all[j].token.kind.Inline() <==> ModifierAt(s, all[j])
  {
    hide ModifierAfter, Spelled, Breaks, Skip, SinceBreak, InlineBefore, Depth;
  }

  /** In every text, the column of a token is that of its first byte if and only if no inline modifier stands in the
      text before it on its line. */
  lemma ColumnIsRightIff(s: string, first: int, asks: seq<bool>, past: nat -> int, i: nat)
    requires i < |Lex(s, Start(s, first), asks, past, 0)|
    ensures var all, base := Lex(s, Start(s, first), asks, past, 0), Start(s, first).at.off;
      all[i].begin <= |s| &&
      (all[i].token.column == 1 + SinceBreak(s, base, all[i].begin) <==>
        !exists j :: 0 <= j < i && ModifierAt(s, all[j]) && Breaks(s, all[j].begin, all[i].begin) == 0)
  {
    var all, base := Lex(s, Start(s, first), asks, past, 0), Start(s, first).at.off;
    EveryTokenIsRight(s, first, asks, past);
    OnlyTheLastIsLast(s, Start(s, first), asks, past, 0);
    hide Lex, Start;
    var at := all[i].begin;
    assert RightAt(s, base, first, all, i);
    assert at <= |s| && all[i].token.column == 1 + SinceBreak(s, base, at) + InlineBefore(s, all[..i], at);
    InlineIffSome(s, all[..i], at);
    forall j | 0 <= j < i ensures all[j].token.kind.Inline() <==> ModifierAt(s, all[j]) {
      assert RightAt(s, base, first, all, j);
      InlineIsModifierAt(s, base, first, all, j);
    }
    hide RightAt, ModifierAt, InlineBefore, Breaks, SinceBreak;
    if j :| 0 <= j < i && ModifierAt(s, all[j]) && Breaks(s, all[j].begin, at) == 0 {
      assert all[..i][j].token.kind.Inline() && Breaks(s, all[..i][j].begin, at) == 0;
    }
  }

  lemma ModifierInFour(s: string)
    requires s == "{a}1"
    ensures ModifierAfter(s, 1) == Modifier.Modifier(1, 2, 2, false)
    ensures Skip(s, 0, false) == 0 && Skip(s, 3, false) == 3 && NumberFrom(s, 3) == 4
  {
    assert Over(s, 1, Blank) == 1 && Over(s, 2, WordChar) == 2 && Over(s, 1, WordChar) == 2 && OverDotted(s, 2) == 2;
    assert Over(s, 2, Blank) == 2 && Over(s, 3, Blank) == 3 && Over(s, 4, Digit) == 4;
  }

  lemma FourOnOneLine(s: string)
    requires s == "{a}1"
    ensures Breaks(s, 0, 0) == 0 && Breaks(s, 0, 3) == 0 && Breaks(s, 3, 3) == 0 && SinceBreak(s, 0, 3) == 3
  {
    NoBreaks(s, 0, 3);
    OnOneLine(s, 0, 0, 3);
  }

  /** After a modifier the digit, the fourth byte of its line, is given column 5. */
  lemma ModifierShiftsTheColumn(s: string) returns (a: Answer, b: Answer)
    requires s == "{a}1"
    ensures a == Next(s, Start(s, 1), 0) && a.token == Token(ModifierPrefix, 1, 1, 1, 1)
    ensures b == Next(s, a.state, 0) && b.token == Token(Number, 3, 1, 1, 5) && SinceBreak(s, 0, b.begin) == 3
  {
    ModifierInFour(s);
    FourOnOneLine(s);
    hide ModifierAfter, Skip, NumberFrom, Breaks, SinceBreak, WordFrom;
    var st := Start(s, 1);
    a := Next(s, st, 0);
    assert ScanFrom(s, st, 0) == Scan(ModifierPrefix, 1, 1, 3);
    assert a.state == State(Place(3, 1, 5), false, Context([], [], NotDue));
    assert ScanFrom(s, a.state, 0) == Whole(Number, 3, 4);
    b := Next(s, a.state, 0);
  }
}
