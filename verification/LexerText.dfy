/**
  What the lexer asks of the text it reads (`src/lexer.c`): where it is, what comes next, and the look-aheads,
  which move nothing.
*/
module LexerText {
  import opened Chars
  import NumberText

  predicate HexDigit(c: char) { Digit(c) || 'A' <= c <= 'F' || 'a' <= c <= 'f' }
  predicate WordStart(c: char) { Letter(c) || c == '_' }
  predicate WordChar(c: char) { Letter(c) || Digit(c) || c == '_' }
  predicate Blank(c: char) { c == ' ' || c == '\t' }
  predicate BlankOrCR(c: char) { Blank(c) || c == '\r' }

  function Lower(c: char): char { if 'A' <= c <= 'Z' then c - 'A' + 'a' else c }

  /** Past the bytes that satisfy `p`. */
  function Over(s: string, i: nat, p: char -> bool): (r: nat)
    requires i <= |s|
    ensures i <= r <= |s| && forall k :: i <= k < r ==> p(s[k])
    ensures r < |s| ==> !p(s[r])
    decreases |s| - i
  {
    if i < |s| && p(s[i]) then Over(s, i + 1, p) else i
  }

  /* ---- positions ---- */

  /** Line breaks in `s[a..b]`. */
  function Breaks(s: string, a: nat, b: nat): nat
    requires b <= |s|
  {
    if b <= a then 0 else Breaks(s, a, b - 1) + if s[b - 1] == '\n' then 1 else 0
  }

  /** Bytes of `s[a..b]` since the last line break in it. */
  function SinceBreak(s: string, a: nat, b: nat): nat
    requires b <= |s|
  {
    if b <= a || s[b - 1] == '\n' then 0 else SinceBreak(s, a, b - 1) + 1
  }

  lemma {:induction false} BreaksAdd(s: string, a: nat, b: nat, c: nat)
    requires a <= b <= c <= |s|
    ensures Breaks(s, a, c) == Breaks(s, a, b) + Breaks(s, b, c)
    decreases c
  {
    if b < c {
      BreaksAdd(s, a, b, c - 1);
    }
  }

  lemma {:induction false} OnOneLine(s: string, a: nat, b: nat, c: nat)
    requires a <= b <= c <= |s| && Breaks(s, b, c) == 0
    ensures Breaks(s, a, c) == Breaks(s, a, b) && SinceBreak(s, a, c) == SinceBreak(s, a, b) + (c - b)
    decreases c
  {
    BreaksAdd(s, a, b, c);
    if b < c {
      OnOneLine(s, a, b, c - 1);
    }
  }

  lemma {:induction false} SinceBreakFrom(s: string, a: nat, b: nat, c: nat)
    requires a <= b <= c <= |s| && Breaks(s, b, c) > 0
    ensures SinceBreak(s, a, c) == SinceBreak(s, b, c)
    decreases c
  {
    if s[c - 1] != '\n' {
      SinceBreakFrom(s, a, b, c - 1);
    }
  }

  lemma {:induction false} NoBreaks(s: string, a: nat, b: nat)
    requires b <= |s| && forall k :: a <= k < b ==> s[k] != '\n'
    ensures Breaks(s, a, b) == 0
    decreases b
  {
    if a < b {
      NoBreaks(s, a, b - 1);
    }
  }

  /** How far off a column is after `s[a..b]`, having been `d` off before: a line break sets it right. */
  function Carried(s: string, d: int, a: nat, b: nat): int
    requires b <= |s|
  {
    if Breaks(s, a, b) > 0 then 0 else d
  }

  /* ---- what stands between tokens ---- */

  predicate NotBreak(c: char) { c != '\n' }

  /** Past spaces, carriage returns and comments, and inside brackets past line breaks too. */
  function Skip(s: string, i: nat, inBrackets: bool): (r: nat)
    requires i <= |s|
    ensures i <= r <= |s|
    ensures r < |s| ==> !BlankOrCR(s[r]) && s[r] != '\'' && !(inBrackets && s[r] == '\n')
    decreases |s| - i
  {
    if i == |s| then i
    else if BlankOrCR(s[i]) || (inBrackets && s[i] == '\n') then Skip(s, i + 1, inBrackets)
    else if s[i] == '\'' then Skip(s, Over(s, i + 1, NotBreak), inBrackets)
    else i
  }

  lemma {:induction false} SkipStep(s: string, i: nat, inBrackets: bool)
    requires i < |s|
    ensures BlankOrCR(s[i]) || (inBrackets && s[i] == '\n') ==> Skip(s, i, inBrackets) == Skip(s, i + 1, inBrackets)
    ensures s[i] == '\'' ==> Skip(s, i, inBrackets) == Skip(s, Over(s, i, NotBreak), inBrackets)
  {
  }

  lemma SkipDone(s: string, i: nat, inBrackets: bool)
    requires i <= |s|
    requires i < |s| ==> !BlankOrCR(s[i]) && s[i] != '\'' && !(inBrackets && s[i] == '\n')
    ensures Skip(s, i, inBrackets) == i
  {
  }

  /** Skipping inside brackets goes on where skipping on one line stopped. */
  lemma {:induction false} SkipOnward(s: string, i: nat)
    requires i <= |s|
    ensures Skip(s, Skip(s, i, false), true) == Skip(s, i, true)
    decreases |s| - i
  {
    if i < |s| {
      if BlankOrCR(s[i]) {
        SkipOnward(s, i + 1);
      } else if s[i] == '\'' {
        SkipOnward(s, Over(s, i + 1, NotBreak));
      }
    }
  }

  /* ---- words ---- */

  /** `keyword_equals`. */
  predicate IsWord(text: string, word: string) {
    |text| == |word| && forall i :: 0 <= i < |text| ==> Lower(text[i]) == word[i]
  }

  /** The reserved words. */
  predicate Reserved(word: string) {
    word in {
      "program", "library", "load", "use", "export", "if", "then", "else", "end", "for", "to", "step", "do", "until",
      "while", "consider", "break", "continue", "function", "return", "print", "dim", "as", "watch", "unwatch",
      "without", "watchers", "modifier", "goto", "gosub", "with", "new", "spawn", "on", "next", "stop", "error",
      "true", "false", "nothing", "unknown", "and", "or", "not", "try", "excluding", "intersecting", "in", "each"}
  }

  /** `sql_skip_word`: past a word, or `from` itself where there is none. */
  function OverWord(s: string, i: nat): (r: nat)
    requires i <= |s|
    ensures i <= r <= |s|
  {
    if WordStart(At(s, i)) then Over(s, i, WordChar) else i
  }

  /** A word, blanks, and a parenthesis: the head of a `window` or `database` block. */
  predicate NameAndParenthesis(s: string, i: nat)
    requires i <= |s|
  {
    var p := Over(s, i, Blank);
    WordStart(At(s, p)) && At(s, Over(s, OverWord(s, p), Blank)) == '('
  }

  predicate EndOfHead(c: char) { c == '\n' || c == '\'' || c == NUL }

  /** `sql_head_follows`: a name, `on`, a name perhaps with a library's before it, and nothing more. */
  predicate SqlHead(s: string, i: nat)
    requires i <= |s|
  {
    var name := Over(s, i, Blank);
    var afterName := OverWord(s, name);
    if afterName == name || !Blank(At(s, afterName)) then false
    else
      var on := Over(s, afterName, Blank);
      var afterOn := OverWord(s, on);
      if afterOn - on != 2 || Lower(s[on]) != 'o' || Lower(s[on + 1]) != 'n' || !Blank(At(s, afterOn)) then false
      else
        var store := Over(s, afterOn, Blank);
        var afterStore := OverWord(s, store);
        if afterStore == store then false
        else if At(s, afterStore) == '.' then
          var last := OverWord(s, afterStore + 1);
          last > afterStore + 1 && EndOfHead(At(s, Over(s, last, BlankOrCR)))
        else EndOfHead(At(s, Over(s, afterStore, BlankOrCR)))
  }

  /** `sql_word_is`. */
  predicate WordAt(s: string, i: nat, word: string) {
    forall k :: 0 <= k < |word| ==> Lower(At(s, i + k)) == word[k]
  }

  /** `sql_end_line`: the line reads `end sql`. */
  predicate SqlEnd(s: string, i: nat)
    requires i <= |s|
  {
    var p := Over(s, i, Blank);
    if !WordAt(s, p, "end") || !Blank(At(s, p + 3)) || p + 3 > |s| then false
    else
      var q := Over(s, p + 3, Blank);
      if !WordAt(s, q, "sql") || q + 3 > |s| then false
      else EndOfHead(At(s, Over(s, q + 3, BlankOrCR)))
  }

  /* ---- inline modifiers ---- */

  /** Past a name of words joined by dots. */
  function OverDotted(s: string, i: nat): (r: nat)
    requires i <= |s|
    ensures i <= r <= |s| && forall k :: i <= k < r ==> s[k] != '\n'
    decreases |s| - i
  {
    if At(s, i) == '.' && WordStart(At(s, i + 1)) then OverDotted(s, Over(s, i + 1, WordChar)) else i
  }

  datatype Close = NoClose | Close(at: nat)

  /** The brace that closes the phrase, on the same line and outside strings. */
  function Closing(s: string, i: nat, inString: bool, escape: bool, depth: nat): (c: Close)
    requires i <= |s|
    ensures c.Close? ==> i <= c.at < |s| && s[c.at] == '}' && forall k :: i <= k < c.at ==> s[k] != '\n'
    decreases |s| - i
  {
    if i == |s| || s[i] == '\n' then NoClose
    else if escape then Closing(s, i + 1, inString, false, depth)
    else if s[i] == '\\' && inString then Closing(s, i + 1, inString, true, depth)
    else if s[i] == '"' then Closing(s, i + 1, !inString, false, depth)
    else if !inString && s[i] == '{' then Closing(s, i + 1, inString, false, depth + 1)
    else if !inString && s[i] == '}' then
      if depth == 0 then Close(i) else Closing(s, i + 1, inString, false, depth - 1)
    else Closing(s, i + 1, inString, false, depth)
  }

  /** Back over blanks. */
  function BackOverBlanks(s: string, low: nat, i: nat): (r: nat)
    requires low <= i <= |s|
    ensures low <= r <= i
  {
    if i > low && Blank(s[i - 1]) then BackOverBlanks(s, low, i - 1) else i
  }

  datatype Modifier = NoModifier | Modifier(start: nat, end: nat, close: nat, names: bool)

  /** What follows a brace: a name alone, or a phrase that cannot be a record's first field. */
  function ModifierAfter(s: string, i: nat): (m: Modifier)
    requires i <= |s|
    ensures m.Modifier? ==> i <= m.start <= m.end <= m.close < |s| && s[m.close] == '}'
    ensures m.Modifier? ==> forall k :: i <= k <= m.close ==> s[k] != '\n'
  {
    var name := Over(s, i, Blank);
    if !WordStart(At(s, name)) then NoModifier
    else
      var end := OverDotted(s, Over(s, name, WordChar));
      var after := Over(s, end, Blank);
      if At(s, after) == '}' then
        var tail := At(s, Over(s, after + 1, Blank));
        Modifier(name, end, after, tail == ',' || tail == ')' || tail == '\n' || tail == '\r' || tail == NUL)
      else if At(s, after) != ':' && At(s, after) != '=' && At(s, after) != '(' then
        match Closing(s, after, false, false, 0)
        case NoClose => NoModifier
        case Close(close) => Modifier(name, BackOverBlanks(s, name, close), close, false)
      else NoModifier
  }

  /** What follows an `sql` head is not the colon of a record key. */
  lemma SqlIsNoKey(s: string, i: nat)
    requires i <= |s| && SqlHead(s, i)
    ensures At(s, Over(s, i, BlankOrCR)) != ':'
  {
    var name := Over(s, i, Blank);
    SameOver(s, i, name);
  }

  lemma {:induction false} SameOver(s: string, i: nat, r: nat)
    requires i <= r < |s| && Over(s, i, Blank) == r && !BlankOrCR(s[r])
    ensures Over(s, i, BlankOrCR) == r
    decreases r - i
  {
    if i < r {
      SameOver(s, i + 1, r);
    }
  }

  /* ---- numbers ---- */

  /** `0x` and digits of base sixteen. */
  predicate HexNumber(t: string) {
    |t| >= 3 && t[0] == '0' && (t[1] == 'x' || t[1] == 'X') && forall k :: 2 <= k < |t| ==> HexDigit(t[k])
  }

  lemma DigitsAre(s: string, a: nat, b: nat)
    requires a <= b <= |s| && forall k :: a <= k < b ==> Digit(s[k])
    ensures NumberText.Digits(s[a..b])
  {
    assert forall k :: 0 <= k < b - a ==> s[a..b][k] == s[a + k];
  }

  /** An exponent: its letter, perhaps a sign, and digits from `e` on. */
  ghost predicate IsPower(s: string, b: nat, e: nat, c: nat) {
    && b < e < c <= |s| && (s[b] == 'e' || s[b] == 'E')
    && (e == b + 1 || (e == b + 2 && (s[b + 1] == '+' || s[b + 1] == '-')))
    && forall k :: e <= k < c ==> Digit(s[k])
  }

  lemma InThree<T>(s: seq<T>, b: nat, e: nat, c: nat)
    requires b < e <= c <= |s|
    ensures s[b..c] == [s[b]] + s[b + 1..e] + s[e..c]
  {
  }

  lemma SignLexeme(s: string, b: nat, e: nat, c: nat)
    requires IsPower(s, b, e, c)
    ensures NumberText.Signs(s[b + 1..e])
  {
    assert e == b + 2 ==> s[b + 1..e] == [s[b + 1]];
  }

  lemma PowerLexeme(s: string, b: nat, e: nat, c: nat)
    requires IsPower(s, b, e, c)
    ensures NumberText.Power(s[b..c])
  {
    DigitsAre(s, e, c);
    SignLexeme(s, b, e, c);
    InThree(s, b, e, c);
    hide NumberText.Signs, NumberText.Digits;
    assert NumberText.PowerParts(s[b..c], s[b], s[b + 1..e], s[e..c]);
  }

  /** A fraction: a dot and digits. */
  ghost predicate IsFraction(s: string, a: nat, b: nat) {
    a < b <= |s| && s[a] == '.' && forall k :: a < k < b ==> Digit(s[k])
  }

  lemma FractionLexeme(s: string, a: nat, b: nat)
    requires IsFraction(s, a, b)
    ensures NumberText.Fraction(s[a..b], s[a + 1..b])
  {
    DigitsAre(s, a + 1, b);
    assert s[a..b] == "." + s[a + 1..b];
  }

  /** Digits up to `a`, perhaps a fraction up to `b`, perhaps an exponent up to `c` whose digits start at `e`. */
  lemma NumberLexeme(s: string, start: nat, a: nat, b: nat, e: nat, c: nat)
    requires start < a <= b <= c <= |s| && forall k :: start <= k < a ==> Digit(s[k])
    requires a < b ==> IsFraction(s, a, b)
    requires b < c ==> IsPower(s, b, e, c)
    ensures NumberText.Problem(s[start..c], false) == NumberText.Fine
  {
    hide NumberText.Power, NumberText.Problem, NumberText.Digits, IsPower, IsFraction;
    var whole, fraction, power := s[start..a], s[a..b], s[b..c];
    DigitsAre(s, start, a);
    var after := "";
    NoFraction();
    if a < b {
      after := s[a + 1..b];
      FractionLexeme(s, a, b);
    }
    if b < c {
      PowerLexeme(s, b, e, c);
    }
    hide NumberText.Fraction;
    assert s[start..c] == "" + whole + fraction + power;
    assert NumberText.NumberParts(s[start..c], "", whole, fraction, after, power);
    NumberText.NumberIsRead(s[start..c]);
  }

  lemma NoFraction()
    ensures NumberText.Fraction("", "") && NumberText.Power("")
  {
  }
}
