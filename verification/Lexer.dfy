/**
  The lexer as it runs (`src/lexer.c`): a place in the text moved on byte by byte, a stack of brackets and one of
  `consider` columns kept in arrays, look-aheads that go on and come back.
*/
module Lexer {
  import opened Chars
  import opened LexerText
  import opened LexerSpec
  import opened LexerTheorems
  import opened Wrappers

  lemma MoveNowhere(s: string, p: Place)
    requires p.off <= |s|
    ensures Move(s, p, p.off) == p
  {
  }

  lemma MoveOne(s: string, p: Place)
    requires p.off < |s|
    ensures Move(s, p, p.off + 1) == if s[p.off] == '\n' then Place(p.off + 1, p.line + 1, 1)
              else Place(p.off + 1, p.line, p.column + 1)
  {
    assert Breaks(s, p.off, p.off) == 0;
  }

  lemma MoveOn(s: string, p: Place, a: nat, b: nat)
    requires p.off <= a <= b <= |s|
    ensures Move(s, Move(s, p, a), b) == Move(s, p, b)
  {
    BreaksAdd(s, p.off, a, b);
    if Breaks(s, a, b) == 0 {
      OnOneLine(s, p.off, a, b);
    } else {
      SinceBreakFrom(s, p.off, a, b);
    }
  }

  class Lexer {
    const source: string
    var current: nat
    var line: int
    var column: int
    var lensMode: bool
    var considerDepth: nat
    const considerColumns: array<int>
    var bracketDepth: nat
    const bracketLines: array<int>
    const bracketChars: array<char>
    var sqlBody: SqlBody
    var sqlOpenLine: int
    ghost var brackets: seq<char>
    ghost var considers: seq<int>

    ghost predicate InText()
      reads `current
    {
      NoNul(source) && current <= |source|
    }

    /** The arrays hold the outermost entries of the stacks. */
    ghost predicate Stacked()
      reads `bracketDepth, `considerDepth, `brackets, `considers, bracketChars, considerColumns
    {
      && considerColumns.Length == bracketLines.Length == bracketChars.Length == STACK
      && considerColumns != bracketLines
      && |brackets| == bracketDepth && |considers| == considerDepth
      && (forall k :: 0 <= k < STACK && k < bracketDepth ==> bracketChars[k] == brackets[k])
      && (forall k :: 0 <= k < STACK && k < considerDepth ==> considerColumns[k] == considers[k])
    }

    ghost predicate Valid()
      reads this, bracketChars, considerColumns
    {
      InText() && Stacked()
    }

    function Here(): Place
      reads `current, `line, `column
    {
      Place(current, line, column)
    }

    ghost function Ctx(): Context
      reads `brackets, `considers, `sqlBody
    {
      Context(brackets, considers, sqlBody)
    }

    ghost function View(): State
      reads `current, `line, `column, `lensMode, `brackets, `considers, `sqlBody
    {
      State(Here(), lensMode, Ctx())
    }

    /** `lexer_init_at`. */
    constructor (text: string, first: int)
      requires NoNul(text)
      ensures Valid() && source == text && View() == Start(text, first)
      ensures fresh(considerColumns) && fresh(bracketLines) && fresh(bracketChars)
    {
      source := text;
      current, line, column := 0, first, 1;
      if |text| >= 3 && text[0] as int == 0xEF && text[1] as int == 0xBB && text[2] as int == 0xBF {
        current := 3;
      }
      lensMode, considerDepth, bracketDepth := false, 0, 0;
      considerColumns := new int[STACK];
      bracketLines := new int[STACK];
      bracketChars := new char[STACK];
      sqlBody, sqlOpenLine := NotDue, 0;
      brackets, considers := [], [];
    }

    /** `advance`. */
    method Advance(ghost from: Place) returns (ch: char)
      requires InText() && current < |source| && from.off <= current && Here() == Move(source, from, current)
      modifies `current, `line, `column
      ensures InText() && current == old(current) + 1 && ch == source[old(current)]
      ensures Here() == Move(source, from, current)
    {
      MoveOne(source, Here());
      MoveOn(source, from, current, current + 1);
      ch := source[current];
      current := current + 1;
      if ch == '\n' {
        line := line + 1;
        column := 1;
      } else {
        column := column + 1;
      }
    }

    /** Advances while bytes satisfy `p`. */
    method AdvanceOver(p: char -> bool, ghost from: Place)
      requires InText() && from.off <= current && Here() == Move(source, from, current)
      modifies `current, `line, `column
      ensures InText() && current == Over(source, old(current), p) && Here() == Move(source, from, current)
    {
      hide Move;
      while current < |source| && p(source[current])
        invariant InText() && from.off <= current && Over(source, current, p) == Over(source, old(current), p)
        invariant Here() == Move(source, from, current)
        decreases |source| - current
      {
        var _ := Advance(from);
      }
    }

    /** Back to a place remembered. */
    method Restore(to: Place)
      requires to.off <= |source| && NoNul(source)
      modifies `current, `line, `column
      ensures InText() && Here() == to
    {
      current, line, column := to.off, to.line, to.column;
    }

    /** `skip_spaces_and_comments`. */
    method SkipSpacesAndComments(ghost from: Place)
      requires InText() && from.off <= current && Here() == Move(source, from, current)
      modifies `current, `line, `column
      ensures InText() && current == Skip(source, old(current), false) && Here() == Move(source, from, current)
    {
      hide Move, Skip;
      while true
        invariant InText() && from.off <= current && Skip(source, current, false) == Skip(source, old(current), false)
        invariant Here() == Move(source, from, current)
        decreases |source| - current
      {
        if current < |source| {
          SkipStep(source, current, false);
        }
        if current < |source| && BlankOrCR(source[current]) {
          var _ := Advance(from);
        } else if current < |source| && source[current] == '\'' {
          AdvanceOver(NotBreak, from);
        } else {
          SkipDone(source, current, false);
          return;
        }
      }
    }

    /** Between tokens: inside brackets a line break is a blank. */
    method SkipToToken()
      requires InText()
      modifies `current, `line, `column
      ensures InText() && current == Skip(source, old(current), bracketDepth > 0)
      ensures Here() == Move(source, old(Here()), current)
    {
      hide Skip, Move;
      ghost var from := Here();
      MoveNowhere(source, from);
      SkipSpacesAndComments(from);
      SkipOnward(source, from.off);
      while bracketDepth > 0 && current < |source| && source[current] == '\n'
        invariant InText() && from.off <= current && bracketDepth == old(bracketDepth)
        invariant bracketDepth > 0 ==> Skip(source, current, true) == Skip(source, from.off, true)
        invariant bracketDepth == 0 ==> current == Skip(source, from.off, false)
        invariant current == |source| || (!BlankOrCR(source[current]) && source[current] != '\'')
        invariant Here() == Move(source, from, current)
        decreases |source| - current
      {
        SkipStep(source, current, true);
        var _ := Advance(from);
        SkipOnward(source, current);
        SkipSpacesAndComments(from);
      }
      if bracketDepth > 0 {
        SkipDone(source, current, true);
      }
    }

    /** `string_token`, past its opening quote. */
    method StringToken() returns (kind: Kind)
      requires InText()
      modifies `current, `line, `column
      ensures InText() && old(current) <= current && (kind, current) == StringFrom(source, old(current))
      ensures Here() == Move(source, old(Here()), current)
    {
      hide Move, UnicodeFrom;
      ghost var from := Here();
      MoveNowhere(source, from);
      while current < |source|
        invariant InText() && from.off <= current && Here() == Move(source, from, current)
        invariant StringFrom(source, current) == StringFrom(source, from.off)
        decreases |source| - current
      {
        var ch := Advance(from);
        if ch == '"' {
          return StringLit;
        }
        if ch == '\\' {
          if current == |source| || source[current] == '\n' {
            return Error;
          }
          var esc := Advance(from);
          if esc == 'u' {
            var good := UnicodeEscape(from);
            if !good {
              return Error;
            }
          }
        }
      }
      return Error;
    }

    /** `\u{` digits `}`. */
    method UnicodeEscape(ghost from: Place) returns (good: bool)
      requires InText() && from.off <= current && Here() == Move(source, from, current)
      modifies `current, `line, `column
      ensures InText() && old(current) <= current && Here() == Move(source, from, current)
      ensures (good, current) == UnicodeFrom(source, old(current))
    {
      hide Move;
      if current == |source| || source[current] != '{' {
        return false;
      }
      var _ := Advance(from);
      var first := current;
      AdvanceOver(HexDigit, from);
      var digits := current - first;
      if current == |source| || source[current] != '}' {
        return false;
      }
      var _ := Advance(from);
      return digits > 0;
    }

    /** `lens_content_token`. */
    method LensContentToken() returns (kind: Kind)
      requires InText()
      modifies `current, `line, `column, `lensMode
      ensures InText() && !lensMode && old(current) <= current
      ensures (kind, current) == LensFrom(source, old(current), false, false)
      ensures Here() == Move(source, old(Here()), current)
    {
      hide Move;
      ghost var from := Here();
      MoveNowhere(source, from);
      var inString, escape := false, false;
      while current < |source|
        invariant InText() && from.off <= current && Here() == Move(source, from, current)
        invariant LensFrom(source, current, inString, escape) == LensFrom(source, from.off, false, false)
        decreases |source| - current
      {
        var ch := source[current];
        if escape {
          escape := false;
          var _ := Advance(from);
          continue;
        }
        if inString && ch == '\\' {
          escape := true;
          var _ := Advance(from);
          continue;
        }
        if ch == '"' {
          inString := !inString;
        }
        if !inString && ch == '}' {
          lensMode := false;
          return LensContent;
        }
        if ch == '\n' {
          break;
        }
        var _ := Advance(from);
      }
      lensMode := false;
      return Error;
    }

    /** `sql_body_token`. */
    method SqlBodyToken() returns (kind: Kind)
      requires InText()
      modifies `current, `line, `column, `sqlBody
      ensures InText() && sqlBody.NotDue? && old(current) <= current
      ensures (kind, current) == SqlFrom(source, old(current), old(column))
      ensures Here() == Move(source, old(Here()), current)
    {
      hide Move, SqlEnd;
      sqlBody := NotDue;
      ghost var from := Here();
      MoveNowhere(source, from);
      while true
        invariant InText() && from.off <= current && Here() == Move(source, from, current) && sqlBody.NotDue?
        invariant SqlFrom(source, current, column) == SqlFrom(source, from.off, from.column)
        decreases |source| - current
      {
        if current == |source| {
          return Error;
        }
        if column == 1 && SqlEnd(source, current) {
          return SqlText;
        }
        MoveOne(source, Here());
        MoveOn(source, from, current, current + 1);
        var _ := Advance(from);
      }
    }

    /** `number_token`, past its first digit. */
    method NumberToken()
      requires InText() && 0 < current && Digit(source[current - 1])
      modifies `current, `line, `column
      ensures InText() && old(current) <= current && current == NumberFrom(source, old(current) - 1)
      ensures Here() == Move(source, old(Here()), current)
    {
      hide Move, Over;
      ghost var from := Here();
      MoveNowhere(source, from);
      if source[current - 1] == '0' && (At(source, current) == 'x' || At(source, current) == 'X')
         && HexDigit(At(source, current + 1)) {
        var _ := Advance(from);
        AdvanceOver(HexDigit, from);
        return;
      }
      AdvanceOver(Digit, from);
      PassFraction(from);
      PassExponent(from);
    }

    method PassFraction(ghost from: Place)
      requires InText() && from.off <= current && Here() == Move(source, from, current)
      modifies `current, `line, `column
      ensures InText() && old(current) <= current && current == FractionFrom(source, old(current))
      ensures Here() == Move(source, from, current)
    {
      hide Move, Over;
      if At(source, current) == '.' && Digit(At(source, current + 1)) {
        var _ := Advance(from);
        AdvanceOver(Digit, from);
      }
    }

    method PassExponent(ghost from: Place)
      requires InText() && from.off <= current && Here() == Move(source, from, current)
      modifies `current, `line, `column
      ensures InText() && old(current) <= current && current == ExponentFrom(source, old(current))
      ensures Here() == Move(source, from, current)
    {
      hide Move, Over;
      if At(source, current) == 'e' || At(source, current) == 'E' {
        var rest := current + 1;
        if At(source, rest) == '+' || At(source, rest) == '-' {
          rest := rest + 1;
        }
        if Digit(At(source, rest)) {
          var _ := Advance(from);
          if At(source, current) == '+' || At(source, current) == '-' {
            var _ := Advance(from);
          }
          AdvanceOver(Digit, from);
        }
      }
    }

    /** `lexer_in_brace`. */
    method LexerInBrace() returns (inBrace: bool)
      requires Stacked()
      ensures inBrace == InBrace(brackets)
    {
      if bracketDepth == 0 || bracketDepth > STACK {
        return false;
      }
      return bracketChars[bracketDepth - 1] == '{';
    }

    /** The `consider` that an `end` may close; otherwise nothing moves. */
    method EndOfConsider() returns (closed: bool)
      requires Valid()
      modifies `current, `line, `column, `considerDepth, `considers
      ensures Valid() && old(current) <= current && Here() == Move(source, old(Here()), current)
      ensures current == ConsiderAfter(source, old(current)) && closed == (current > old(current))
      ensures considers == if closed then ButLast(old(considers)) else old(considers)
    {
      hide Move, IsWord;
      ghost var from := Here();
      MoveNowhere(source, from);
      var saved := Here();
      AdvanceOver(BlankOrCR, from);
      var word := current;
      AdvanceOver(WordChar, from);
      if IsWord(source[word..current], "consider") {
        IsLong(source[word..current]);
        if considerDepth > 0 {
          considerDepth := considerDepth - 1;
        }
        considers := ButLast(considers);
        return true;
      }
      Restore(saved);
      closed := false;
    }

    /** Whether blanks and then `c` come next; nothing moves. */
    method Ahead(c: char) returns (ahead: bool)
      requires InText()
      modifies `current, `line, `column
      ensures InText() && Here() == old(Here())
      ensures ahead == (At(source, Over(source, current, BlankOrCR)) == c)
    {
      hide Move;
      var saved := Here();
      MoveNowhere(source, saved);
      AdvanceOver(BlankOrCR, saved);
      ahead := At(source, current) == c;
      Restore(saved);
    }

    /** The second word of `library.name(`; otherwise nothing moves. */
    method Qualified() returns (qualified: bool)
      requires InText()
      modifies `current, `line, `column
      ensures InText() && old(current) <= current && Here() == Move(source, old(Here()), current)
      ensures current == QualifiedFrom(source, old(current)) && qualified == (current > old(current))
    {
      hide Move, Over;
      ghost var from := Here();
      MoveNowhere(source, from);
      if At(source, current) != '.' || !WordStart(At(source, current + 1)) {
        return false;
      }
      var saved := Here();
      var _ := Advance(from);
      AdvanceOver(WordChar, from);
      qualified := Ahead('(');
      if !qualified {
        Restore(saved);
      }
    }

    /** A branch of a `consider` is told by its column; a `consider` is remembered by its own. */
    method BranchOrOpen(word: Kind, column: int, past: int) returns (kind: Kind)
      requires Stacked()
      modifies `considerDepth, `considers, considerColumns
      ensures Stacked() && kind == Branch(word, column, old(considers), past)
      ensures considers == if kind == Keyword("consider") then old(considers) + [column] else old(considers)
    {
      kind := word;
      if word == Keyword("consider") {
        if considerDepth < STACK {
          considerColumns[considerDepth] := column;
        }
        considers := considers + [column];
        considerDepth := considerDepth + 1;
      } else if considerDepth > 0 {
        var top := if considerDepth <= STACK then considerColumns[considerDepth - 1] else past;
        if column == top && word == Keyword("if") {
          kind := ConsiderIf;
        } else if column == top && word == Keyword("else") {
          kind := ConsiderElse;
        }
      }
    }

    /** `identifier_token`, past its first byte. */
    method IdentifierToken(start: nat, line: int, column: int, past: int) returns (kind: Kind)
      requires Valid() && current == start + 1
      modifies `current, `line, `column, `considerDepth, `considers, considerColumns, `sqlBody, `sqlOpenLine
      ensures Valid() && start < current && Whole(kind, start, current) == WordFrom(source, start, column, old(Ctx()), past)
      ensures Here() == Move(source, old(Here()), current)
      ensures Ctx() == After(old(Ctx()), kind, column)
    {
      hide Move, Over, WordKind, IsWord, ConsiderAfter, QualifiedFrom, InBrace, Branch;
      ghost var from := Here();
      MoveNowhere(source, from);
      AdvanceOver(WordChar, from);
      ghost var end := Here();
      if IsWord(source[start..current], "end") {
        var closed := EndOfConsider();
        MoveOn(source, from, end.off, current);
        if closed {
          return EndConsider;
        }
      }
      kind := FinishWord(start, line, column, past);
      MoveOn(source, from, end.off, current);
    }

    /** A word before a colon in an open brace is a record key, and a plain name. */
    method NotKey(word: Kind) returns (kind: Kind)
      requires Valid()
      modifies `current, `line, `column
      ensures Valid() && Here() == old(Here())
      ensures kind == NameOrWord(source, word, current, brackets)
    {
      hide Over, InBrace;
      kind := word;
      var inBrace := LexerInBrace();
      if word != Ident && inBrace {
        var key := Ahead(':');
        if key {
          kind := Ident;
        }
      }
    }

    /** `identifier_token`, once the word is read. */
    method FinishWord(start: nat, line: int, column: int, past: int) returns (kind: Kind)
      requires Valid() && start < current
      modifies `current, `line, `column, `considerDepth, `considers, considerColumns, `sqlBody, `sqlOpenLine
      ensures Valid() && old(current) <= current && Here() == Move(source, old(Here()), current)
      ensures var plain := NameOrWord(source, WordKind(source, start, old(current)), old(current), old(brackets));
        && current == (if plain == Ident then QualifiedFrom(source, old(current)) else old(current))
        && kind == if current > old(current) then QualifiedIdent else Branch(plain, column, old(considers), past)
      ensures Ctx() == After(old(Ctx()), kind, column)
    {
      hide Move, Over, WordKind, QualifiedFrom, SqlHead, Stacked, InBrace, Branch, NameOrWord;
      MoveNowhere(source, Here());
      ghost var from := Here();
      var word := WordKind(source, start, current);
      WordKindIff(source, start, current);
      if word == SqlOpen {
        sqlBody, sqlOpenLine := HeadRead, line;
        SqlOpenStays(source, start, current, brackets);
      }
      NameOrWordIff(source, word, current, brackets);
      kind := NotKey(word);
      if kind == Ident {
        var qualified := Qualified();
        if qualified {
          return QualifiedIdent;
        }
      }
      BranchKinds(kind, column, considers, past);
      kind := BranchOrOpen(kind, column, past);
    }

    /** `bracket_open`. */
    method BracketOpen(ch: char, line: int)
      requires Stacked()
      modifies `bracketDepth, `brackets, bracketLines, bracketChars
      ensures Stacked() && brackets == old(brackets) + [ch]
    {
      if bracketDepth < STACK {
        bracketChars[bracketDepth] := ch;
        bracketLines[bracketDepth] := line;
      }
      brackets := brackets + [ch];
      bracketDepth := bracketDepth + 1;
    }

    /** `bracket_close`. */
    method BracketClose()
      requires Stacked()
      modifies `bracketDepth, `brackets
      ensures Stacked() && brackets == ButLast(old(brackets))
    {
      brackets := ButLast(brackets);
      if bracketDepth > 0 {
        bracketDepth := bracketDepth - 1;
      }
    }

    /** The scan for the brace that closes a phrase, on the same line and outside strings. */
    method FindClosing(from: nat) returns (c: Close)
      requires from <= |source|
      ensures c == Closing(source, from, false, false, 0)
    {
      var scan, inString, escape, depth: nat := from, false, false, 0;
      while scan < |source| && source[scan] != '\n'
        invariant from <= scan <= |source|
        invariant Closing(source, scan, inString, escape, depth) == Closing(source, from, false, false, 0)
        decreases |source| - scan
      {
        var ch := source[scan];
        if escape {
          escape := false;
        } else if ch == '\\' && inString {
          escape := true;
        } else if ch == '"' {
          inString := !inString;
        } else if !inString && ch == '{' {
          depth := depth + 1;
        } else if !inString && ch == '}' {
          if depth == 0 {
            return Close.Close(scan);
          }
          depth := depth - 1;
        }
        scan := scan + 1;
      }
      return NoClose;
    }

    /** What the bytes after a brace make it. */
    method FindModifier(i: nat) returns (m: Modifier)
      requires i <= |source|
      ensures m == ModifierAfter(source, i)
    {
      hide Closing;
      var name := Over(source, i, Blank);
      if !WordStart(At(source, name)) {
        return NoModifier;
      }
      var end := OverDotted(source, Over(source, name, WordChar));
      var after := Over(source, end, Blank);
      if At(source, after) == '}' {
        var tail := At(source, Over(source, after + 1, Blank));
        return Modifier.Modifier(name, end, after,
                                 tail == ',' || tail == ')' || tail == '\n' || tail == '\r' || tail == NUL);
      }
      if At(source, after) != ':' && At(source, after) != '=' && At(source, after) != '(' {
        var c := FindClosing(after);
        if c.Close? {
          var to := c.at;
          while to > name && Blank(source[to - 1])
            invariant name <= to <= c.at && BackOverBlanks(source, name, to) == BackOverBlanks(source, name, c.at)
          {
            to := to - 1;
          }
          return Modifier.Modifier(name, to, c.at, false);
        }
      }
      return NoModifier;
    }

    /** After a `{`: an inline modifier moves the column on by the bytes from the brace on, which were counted
        once already. */
    method BraceToken(start: nat, line: int, column: int) returns (scan: Scan)
      requires Valid() && current == start + 1 && source[start] == '{'
      modifies `current, `line, `column, `bracketDepth, `brackets, bracketLines, bracketChars
      ensures Valid() && start < current && scan == BraceFrom(source, start) && current == scan.end
      ensures var end := Move(source, old(Here()), current);
        Here() == if scan.kind.Inline() then end.(column := end.column + 1) else end
      ensures Ctx() == After(old(Ctx()), scan.kind, column)
    {
      hide ModifierAfter, Breaks, SinceBreak;
      MoveNowhere(source, Here());
      var m := FindModifier(current);
      match m
      case Modifier(from, to, close, names) =>
        scan := Scan(if names then ModifierValue else ModifierPrefix, from, to - from, close + 1);
        NoBreaks(source, current, close + 1);
        this.column := this.column + (close + 1 - start);
        current := close + 1;
      case NoModifier =>
        BracketOpen('{', line);
        scan := Whole(Open('{'), start, current);
    }

    /** `match`. */
    method Match(expected: char, ghost from: Place) returns (matched: bool)
      requires InText() && expected != NUL && from.off <= current && Here() == Move(source, from, current)
      modifies `current, `line, `column
      ensures InText() && matched == (At(source, old(current)) == expected)
      ensures current == (if matched then old(current) + 1 else old(current)) && Here() == Move(source, from, current)
    {
      hide Move;
      matched := current < |source| && source[current] == expected;
      if matched {
        var _ := Advance(from);
      }
    }

    /** The other characters: operators, and what is no token at all. */
    method SymbolToken(start: nat) returns (kind: Kind)
      requires InText() && current == start + 1
      modifies `current, `line, `column
      ensures InText() && start < current && Whole(kind, start, current) == SymbolFrom(source, start)
      ensures Here() == Move(source, old(Here()), current)
    {
      hide Move;
      ghost var from := Here();
      MoveNowhere(source, from);
      var ch := source[start];
      var two := false;
      match ch {
        case '=' => return Symbol("=");
        case ',' => return Symbol(",");
        case '.' => return Symbol(".");
        case ':' => return Symbol(":");
        case '<' =>
          two := Match('=', from);
          if two {
            return Symbol("<=");
          }
          two := Match('>', from);
          return if two then Error else Symbol("<");
        case '!' =>
          kind := BangToken(from);
          return;
        case _ =>
      }
      if ch == '+' || ch == '-' || ch == '*' || ch == '/' || ch == '>' {
        two := Match('=', from);
        return Symbol(if two then [ch, '='] else [ch]);
      }
      return Error;
    }

    /** `!=`, `!>`, `!<`, `!>=`, `!<=`. */
    method BangToken(ghost from: Place) returns (kind: Kind)
      requires InText() && 0 < current && source[current - 1] == '!'
      requires from.off <= current && Here() == Move(source, from, current)
      modifies `current, `line, `column
      ensures InText() && old(current) <= current && Here() == Move(source, from, current)
      ensures Whole(kind, old(current) - 1, current) == SymbolFrom(source, old(current) - 1)
    {
      hide Move;
      var matched := Match('=', from);
      if matched {
        return Symbol("!=");
      }
      matched := Match('>', from);
      if matched {
        matched := Match('=', from);
        return Symbol(if matched then "!>=" else "!>");
      }
      matched := Match('<', from);
      if matched {
        matched := Match('=', from);
        return Symbol(if matched then "!<=" else "!<");
      }
      return Error;
    }

    method BracketOrSymbol(ch: char, start: nat, line: int, column: int) returns (scan: Scan)
      requires Valid() && current == start + 1 && ch == source[start]
      modifies `current, `line, `column, `bracketDepth, `brackets, bracketLines, bracketChars
      ensures Valid() && start < current && current == scan.end && !scan.kind.Inline()
      ensures scan == if ch == '(' || ch == '[' then Whole(Open(ch), start, start + 1)
                      else if ch == ')' || ch == ']' || ch == '}' then Whole(Closed(ch), start, start + 1)
                      else SymbolFrom(source, start)
      ensures Here() == Move(source, old(Here()), current)
      ensures Ctx() == if scan.kind.Error? then old(Ctx()) else After(old(Ctx()), scan.kind, column)
    {
      hide Move, SymbolFrom, Stacked;
      MoveNowhere(source, Here());
      if ch == '(' || ch == '[' {
        BracketOpen(ch, line);
        scan := Whole(Open(ch), start, current);
      } else if ch == ')' || ch == ']' || ch == '}' {
        BracketClose();
        scan := Whole(Closed(ch), start, current);
      } else {
        var kind := SymbolToken(start);
        scan := Whole(kind, start, current);
        SymbolIsItsText(source, start);
      }
    }

    /** `lexer_begin_lens_content`, when the parser asks for it. */
    method Ask(asks: seq<bool>)
      requires Valid()
      modifies `lensMode
      ensures Valid() && View() == Asked(old(View()), asks)
    {
      if asks != [] && asks[0] {
        lensMode := true;
      }
    }

    /** What the first byte decides. */
    method ReadToken(start: nat, line: int, column: int, past: int) returns (scan: Scan)
      requires Valid() && start == current < |source| && column == this.column && !sqlBody.Due?
      modifies `current, `line, `column, `considerDepth, `considers, considerColumns, `sqlBody, `sqlOpenLine
      modifies `bracketDepth, `brackets, bracketLines, bracketChars
      ensures Valid() && start < current && scan == TokenFrom(source, start, column, old(Ctx()), past)
      ensures current == scan.end
      ensures var end := Move(source, old(Here()), current);
        Here() == if scan.kind.Inline() then end.(column := end.column + 1) else end
      ensures Ctx() == if scan.kind.Error? then old(Ctx()) else After(old(Ctx()), scan.kind, column)
    {
      hide Move, WordFrom, NumberFrom, StringFrom, BraceFrom, SymbolFrom, Stacked, After, Over;
      ghost var from := Here();
      MoveNowhere(source, from);
      var ch := Advance(from);
      ghost var next := Here();
      AfterPlain(Ctx(), ch, Number, column);
      if ch == '\n' {
        if sqlBody == HeadRead {
          sqlBody := Due;
        }
        return Whole(Newline, start, current);
      }
      if WordStart(ch) {
        var kind := IdentifierToken(start, line, column, past);
        scan := Whole(kind, start, current);
        WordIsNoError(source, start, column, old(Ctx()), past);
      } else if Digit(ch) {
        NumberToken();
        scan := Whole(Number, start, current);
      } else if ch == '"' {
        var kind := StringToken();
        scan := Whole(kind, start, current);
        AfterPlain(old(Ctx()), ch, kind, column);
      } else if ch == '{' {
        scan := BraceToken(start, line, column);
      } else {
        scan := BracketOrSymbol(ch, start, line, column);
      }
      MoveOn(source, from, next.off, current);
    }

    /** `lexer_next`; `past` is what a read past the remembered columns would find. */
    method Next(past: int) returns (t: Token, ghost begin: nat)
      requires Valid()
      modifies this, considerColumns, bracketLines, bracketChars
      ensures Valid() && Answer(t, begin, View()) == LexerSpec.Next(source, old(View()), past)
    {
      hide Move, Skip, TokenFrom, LensFrom, SqlFrom;
      ghost var st := View();
      begin := current;
      MoveNowhere(source, Here());
      var at, l, c := current, line, column;
      if lensMode {
        var kind := LensContentToken();
        return Token(kind, at, current - at, l, c), at;
      }
      if sqlBody == Due {
        var kind := SqlBodyToken();
        return Token(kind, at, current - at, l, c), at;
      }
      SkipToToken();
      at, l, c := current, line, column;
      begin := at;
      MoveNowhere(source, Here());
      if current == |source| {
        if bracketDepth > 0 {
          bracketDepth, brackets := 0, [];
          return Token(Error, at, 0, l, c), at;
        }
        return Token(Eof, at, 0, l, c), at;
      }
      var scan := ReadToken(at, l, c, past);
      t := Token(scan.kind, scan.start, scan.length, l, c);
    }
  }

  lemma IsLong(text: string)
    requires IsWord(text, "consider")
    ensures |text| == 8
  {
  }

  /** The head of an SQL block is never taken for a record key. */
  lemma SqlOpenStays(s: string, start: nat, end: nat, brackets: seq<char>)
    requires start < end <= |s| && WordKind(s, start, end) == SqlOpen
    ensures NameOrWord(s, SqlOpen, end, brackets) == SqlOpen
  {
    SqlIsNoKey(s, end);
  }

  /** What a token that is no word does to the context. */
  lemma AfterPlain(ctx: Context, c: char, kind: Kind, column: int)
    ensures After(ctx, Open(c), column) == ctx.(brackets := ctx.brackets + [c])
    ensures After(ctx, Closed(c), column) == ctx.(brackets := ButLast(ctx.brackets))
    ensures After(ctx, Newline, column) == if ctx.sql.HeadRead? then ctx.(sql := Due) else ctx
    ensures kind.Number? || kind.StringLit? || kind.Symbol? ==> After(ctx, kind, column) == ctx
  {
  }

  /** The tokens of a text, to its end or the first error. It always ends. */
  method LexAll(lexer: Lexer, asks: seq<bool>, past: nat -> int) returns (tokens: seq<Token>)
    requires lexer.Valid()
    modifies lexer, lexer.considerColumns, lexer.bracketLines, lexer.bracketChars
    ensures var all := Lex(lexer.source, old(lexer.View()), asks, past, 0);
      |tokens| == |all| && forall i :: 0 <= i < |all| ==> tokens[i] == all[i].token
  {
    hide LexerSpec.Next, Lex, Measure, Move, Asked, Later, Lexer.Stacked;
    tokens := [];
    ghost var answers: seq<Answer> := [];
    ghost var all := Lex(lexer.source, lexer.View(), asks, past, 0);
    var left, call: nat := asks, 0;
    while true
      invariant lexer.Valid() && |tokens| == |answers|
      invariant forall i :: 0 <= i < |tokens| ==> tokens[i] == answers[i].token
      invariant answers + Lex(lexer.source, lexer.View(), left, past, call) == all
      decreases Measure(lexer.source, lexer.View()) + 2 * |left|
    {
      ghost var st := lexer.View();
      LexOnce(lexer.source, st, left, past, call);
      lexer.Ask(left);
      left := Later(left);
      var t;
      ghost var begin;
      t, begin := lexer.Next(past(call));
      call := call + 1;
      ghost var a := Answer(t, begin, lexer.View());
      tokens, answers := tokens + [t], answers + [a];
      if t.kind.Last() {
        return;
      }
      assert answers + Lex(lexer.source, lexer.View(), left, past, call) == all;
    }
  }

  lemma LexOnce(s: string, st: State, asks: seq<bool>, past: nat -> int, call: nat)
    requires At?(s, st)
    ensures var a := LexerSpec.Next(s, Asked(st, asks), past(call));
      && (a.token.kind.Last() ==> Lex(s, st, asks, past, call) == [a])
      && (!a.token.kind.Last() ==> Lex(s, st, asks, past, call) == [a] + Lex(s, a.state, Later(asks), past, call + 1))
      && (!a.token.kind.Last() ==> Measure(s, a.state) + 2 * |Later(asks)| < Measure(s, st) + 2 * |asks|)
  {
    NextFalls(s, Asked(st, asks), past(call));
  }
}
