/**
  What makes a word a keyword, a name or the head of a block (`src/lexer.c`), told from the bytes: some blanks, a
  word, and so on, wherever they end.
*/
module LexerWords {
  import opened Chars
  import opened LexerText
  import opened LexerSpec
  import opened LexerTheorems

  // ----- bytes of one sort, and words -----

  predicate Only(s: string, i: nat, j: nat, p: char -> bool) {
    i <= j <= |s| && forall k :: i <= k < j ==> p(s[k])
  }

  /** A whole word: no byte of a word follows it. */
  predicate WordIn(s: string, i: nat, j: nat) {
    i < j <= |s| && WordStart(s[i]) && Only(s, i + 1, j, WordChar) && !WordChar(At(s, j))
  }

  predicate IsText(s: string, i: nat, j: nat, word: string) {
    i <= j <= |s| && IsWord(s[i..j], word)
  }

  lemma {:induction false} OverIs(s: string, i: nat, j: nat, p: char -> bool)
    requires Only(s, i, j, p) && (j < |s| ==> !p(s[j]))
    ensures Over(s, i, p) == j
    decreases j - i
  {
    if i < j {
      OverIs(s, i + 1, j, p);
    }
  }

  lemma WordInIs(s: string, i: nat, j: nat)
    requires i <= |s|
    ensures WordIn(s, i, j) <==> WordStart(At(s, i)) && j == Over(s, i, WordChar)
  {
    if WordIn(s, i, j) {
      assert Only(s, i, j, WordChar);
      OverIs(s, i, j, WordChar);
    }
  }

  /** The word that begins at `i` is the only one. */
  lemma OneWord(s: string, i: nat)
    requires i <= |s|
    ensures forall j: nat :: WordIn(s, i, j) <==> WordStart(At(s, i)) && j == Over(s, i, WordChar)
    ensures forall j: nat :: WordIn(s, i, j) <==> OverWord(s, i) > i && j == OverWord(s, i)
  {
    forall j: nat ensures WordIn(s, i, j) <==> WordStart(At(s, i)) && j == Over(s, i, WordChar) {
      WordInIs(s, i, j);
    }
  }

  /** After bytes of one sort comes a byte of another. */
  ghost predicate Then(s: string, i: nat, p: char -> bool, q: char -> bool) {
    exists j :: Only(s, i, j, p) && q(At(s, j))
  }

  lemma ThenIs(s: string, i: nat, p: char -> bool, q: char -> bool)
    requires i <= |s| && forall c :: q(c) ==> !p(c)
    ensures Then(s, i, p, q) <==> q(At(s, Over(s, i, p)))
  {
    if j :| Only(s, i, j, p) && q(At(s, j)) {
      OverIs(s, i, j, p);
    }
    if q(At(s, Over(s, i, p))) {
      assert Only(s, i, Over(s, i, p), p);
    }
  }

  predicate Parenthesis(c: char) { c == '(' }
  predicate Colon(c: char) { c == ':' }

  // ----- names with a library's before them -----

  /** A dot, a word up to `e`, and a parenthesis, perhaps after blanks. */
  ghost predicate CallEnds(s: string, i: nat, e: nat) {
    At(s, i) == '.' && WordIn(s, i + 1, e) && Then(s, e, BlankOrCR, Parenthesis)
  }

  lemma QualifiedIs(s: string, i: nat)
    requires i <= |s|
    ensures QualifiedFrom(s, i) > i <==> exists e :: CallEnds(s, i, e)
    ensures QualifiedFrom(s, i) > i ==> CallEnds(s, i, QualifiedFrom(s, i))
  {
    if At(s, i) == '.' {
      OneWord(s, i + 1);
      var end := Over(s, i + 1, WordChar);
      ThenIs(s, end, BlankOrCR, Parenthesis);
      hide Over, WordIn, Then;
      if QualifiedFrom(s, i) > i {
        assert CallEnds(s, i, end);
      }
    }
  }

  // ----- the heads of blocks -----

  /** Blanks, a word, blanks and a parenthesis. */
  ghost predicate NameAndCall(s: string, i: nat) {
    exists a, b :: Only(s, i, a, Blank) && WordIn(s, a, b) && Then(s, b, Blank, Parenthesis)
  }

  lemma NameAndParenthesisIs(s: string, i: nat)
    requires i <= |s|
    ensures NameAndParenthesis(s, i) <==> NameAndCall(s, i)
  {
    var p := Over(s, i, Blank);
    assert Only(s, i, p, Blank);
    OneWord(s, p);
    ThenIs(s, OverWord(s, p), Blank, Parenthesis);
    if a, b :| Only(s, i, a, Blank) && WordIn(s, a, b) && Then(s, b, Blank, Parenthesis) {
      OverIs(s, i, a, Blank);
    }
  }

  /** Blanks and carriage returns up to the end of the line, a comment, or the end of the text. */
  ghost predicate LineEnds(s: string, i: nat) { Then(s, i, BlankOrCR, EndOfHead) }

  /** A name, perhaps with a library's before it, and nothing more on the line. */
  ghost predicate StoreIn(s: string, e: nat, f: nat) {
    WordIn(s, e, f) && (LineEnds(s, f) || (At(s, f) == '.' && exists g :: WordIn(s, f + 1, g) && LineEnds(s, g)))
  }

  /** A name from `a` to `b`, `on` from `c` to `d`, and a store's name from `e` to `f`, with blanks between. */
  ghost predicate HeadParts(s: string, i: nat, a: nat, b: nat, c: nat, d: nat, e: nat, f: nat) {
    && Only(s, i, a, Blank) && WordIn(s, a, b)
    && b < c && Only(s, b, c, Blank) && WordIn(s, c, d) && IsText(s, c, d, "on")
    && d < e && Only(s, d, e, Blank) && StoreIn(s, e, f)
  }

  ghost predicate HeadReads(s: string, i: nat) {
    exists a, b, c, d, e, f :: HeadParts(s, i, a, b, c, d, e, f)
  }

  /** `StoreIn` as the look-ahead finds it. */
  predicate StoreFound(s: string, e: nat)
    requires e <= |s|
  {
    var f := OverWord(s, e);
    f > e && if At(s, f) == '.' then
               var last := OverWord(s, f + 1);
               last > f + 1 && EndOfHead(At(s, Over(s, last, BlankOrCR)))
             else EndOfHead(At(s, Over(s, f, BlankOrCR)))
  }

  /** The rest of the line after a name. */
  lemma LineEndsIs(s: string, i: nat)
    requires i <= |s|
    ensures LineEnds(s, i) <==> EndOfHead(At(s, Over(s, i, BlankOrCR)))
    ensures At(s, i) == '.' ==> !LineEnds(s, i)
  {
    ThenIs(s, i, BlankOrCR, EndOfHead);
    DotEndsNothing(s, i);
  }

  lemma StoreIsFound(s: string, e: nat, f: nat)
    requires e <= |s| && StoreIn(s, e, f)
    ensures StoreFound(s, e)
  {
    assert WordIn(s, e, f);
    hide WordIn, Over, LineEnds, EndOfHead, OverWord, Only, Then, Blank, BlankOrCR;
    WordEnds(s, e, f);
    LineEndsIs(s, f);
    if At(s, f) == '.' {
      var g: nat :| WordIn(s, f + 1, g) && LineEnds(s, g);
      WordEnds(s, f + 1, g);
      LineEndsIs(s, g);
    }
  }

  lemma StoreIsRead(s: string, e: nat)
    requires e <= |s| && StoreFound(s, e)
    ensures StoreIn(s, e, OverWord(s, e))
  {
    hide WordIn, Over, LineEnds, EndOfHead;
    var f := OverWord(s, e);
    WordReads(s, e);
    LineEndsIs(s, f);
    if At(s, f) == '.' {
      WordReads(s, f + 1);
      LineEndsIs(s, OverWord(s, f + 1));
      assert WordIn(s, f + 1, OverWord(s, f + 1));
    }
  }

  lemma WordReads(s: string, i: nat)
    requires i <= |s| && OverWord(s, i) > i
    ensures WordIn(s, i, OverWord(s, i))
  {
    WordInIs(s, i, OverWord(s, i));
  }

  lemma DotEndsNothing(s: string, f: nat)
    requires f <= |s|
    ensures At(s, f) == '.' ==> Over(s, f, BlankOrCR) == f && !EndOfHead('.')
  {
  }

  lemma SqlHeadIs(s: string, i: nat)
    requires i <= |s|
    ensures SqlHead(s, i) <==> HeadReads(s, i)
  {
    if SqlHead(s, i) {
      HeadIsRead(s, i);
    }
    if a, b, c, d, e, f :| HeadParts(s, i, a, b, c, d, e, f) {
      HeadIsFound(s, i, a, b, c, d, e, f);
    }
  }

  lemma HeadIsFound(s: string, i: nat, a: nat, b: nat, c: nat, d: nat, e: nat, f: nat)
    requires i <= |s| && HeadParts(s, i, a, b, c, d, e, f)
    ensures SqlHead(s, i)
  {
    StoreIsFound(s, e, f);
    assert WordIn(s, e, f);
    hide Over, WordIn, Then, LineEnds, StoreIn, OverWord, StoreFound, EndOfHead;
    WordEnds(s, a, b);
    WordEnds(s, c, d);
    WordEnds(s, e, f);
    OverIs(s, i, a, Blank);
    OverIs(s, b, c, Blank);
    OverIs(s, d, e, Blank);
    assert Blank(s[b]) && Blank(s[d]);
    assert s[c..d][0] == s[c] && s[c..d][1] == s[c + 1];
    hide Only, Blank;
    SqlHeadFound(s, i, a, b, c, d, e);
  }

  lemma BlanksMove(s: string, i: nat)
    requires i <= |s|
    ensures Blank(At(s, i)) ==> Over(s, i, Blank) > i
  {
  }

  lemma WordEnds(s: string, i: nat, j: nat)
    requires WordIn(s, i, j)
    ensures i < j <= |s| && OverWord(s, i) == j && !Blank(s[i])
  {
    WordInIs(s, i, j);
  }

  lemma SqlHeadFound(s: string, i: nat, a: nat, b: nat, c: nat, d: nat, e: nat)
    requires i <= |s| && a < b < c < d < e <= |s| && Over(s, i, Blank) == a && OverWord(s, a) == b
    requires Over(s, b, Blank) == c && OverWord(s, c) == d && Over(s, d, Blank) == e && Blank(s[b]) && Blank(s[d])
    requires d == c + 2 && Lower(s[c]) == 'o' && Lower(s[c + 1]) == 'n' && StoreFound(s, e)
    ensures SqlHead(s, i)
  {
    hide Over, OverWord, EndOfHead, Blank;
  }

  lemma SqlHeadGives(s: string, i: nat) returns (a: nat, b: nat, c: nat, d: nat, e: nat)
    requires i <= |s| && SqlHead(s, i)
    ensures a == Over(s, i, Blank) && b == OverWord(s, a) && c == Over(s, b, Blank) && d == OverWord(s, c)
    ensures e == Over(s, d, Blank) && StoreFound(s, e)
    ensures a < b && c + 2 == d <= |s| && Blank(At(s, b)) && Blank(At(s, d))
    ensures Lower(s[c]) == 'o' && Lower(s[c + 1]) == 'n'
  {
    hide Over, OverWord, EndOfHead, Blank;
    a := Over(s, i, Blank);
    b := OverWord(s, a);
    c := Over(s, b, Blank);
    d := OverWord(s, c);
    e := Over(s, d, Blank);
  }

  lemma HeadIsRead(s: string, i: nat)
    requires i <= |s| && SqlHead(s, i)
    ensures HeadReads(s, i)
  {
    var a, b, c, d, e := SqlHeadGives(s, i);
    hide SqlHead, Over, WordIn, OverWord, StoreFound, StoreIn;
    WordReads(s, a);
    WordReads(s, c);
    StoreIsRead(s, e);
    assert s[c..d] == [s[c], s[c + 1]];
    BlanksMove(s, b);
    BlanksMove(s, d);
    hide Blank;
    assert Only(s, i, a, Blank) && Only(s, b, c, Blank) && Only(s, d, e, Blank);
    assert HeadParts(s, i, a, b, c, d, e, OverWord(s, e));
  }

  // ----- `end consider`, and record keys -----

  /** Blanks and the word `consider`, up to `e`. */
  ghost predicate ConsiderEnds(s: string, i: nat, e: nat) {
    exists a :: Only(s, i, a, BlankOrCR) && WordIn(s, a, e) && IsText(s, a, e, "consider")
  }

  lemma ConsiderIs(s: string, i: nat)
    requires i <= |s|
    ensures ConsiderAfter(s, i) > i <==> exists e :: ConsiderEnds(s, i, e)
    ensures ConsiderAfter(s, i) > i ==> ConsiderEnds(s, i, ConsiderAfter(s, i))
  {
    var word := Over(s, i, BlankOrCR);
    var end := Over(s, word, WordChar);
    if IsWord(s[word..end], "consider") {
      assert s[word..end][0] == s[word];
      WordInIs(s, word, end);
      assert Only(s, i, word, BlankOrCR) && IsText(s, word, end, "consider");
      assert ConsiderEnds(s, i, end);
    }
    if e :| ConsiderEnds(s, i, e) {
      var a :| Only(s, i, a, BlankOrCR) && WordIn(s, a, e) && IsText(s, a, e, "consider");
      ConsiderIsFound(s, i, a, e);
    }
  }

  lemma ConsiderIsFound(s: string, i: nat, a: nat, e: nat)
    requires i <= |s| && Only(s, i, a, BlankOrCR) && WordIn(s, a, e) && IsText(s, a, e, "consider")
    ensures ConsiderAfter(s, i) == e > i
  {
    OverIs(s, i, a, BlankOrCR);
    WordInIs(s, a, e);
  }

  /** The innermost open bracket is a brace, as far as brackets are remembered, and a colon follows. */
  ghost predicate IsKey(s: string, end: nat, brackets: seq<char>) {
    0 < |brackets| <= 64 && brackets[|brackets| - 1] == '{' && Then(s, end, BlankOrCR, Colon)
  }

  lemma KeyIs(s: string, end: nat, brackets: seq<char>)
    requires end <= |s|
    ensures IsKey(s, end, brackets) <==> InBrace(brackets) && At(s, Over(s, end, BlankOrCR)) == ':'
  {
    ThenIs(s, end, BlankOrCR, Colon);
  }

  // ----- what a word is -----

  /** `end` with `consider` after it. */
  ghost predicate EndsConsider(s: string, start: nat, end: nat) {
    IsText(s, start, end, "end") && exists e :: ConsiderEnds(s, end, e)
  }

  /** A reserved word after no dot that is not the key of a record. */
  ghost predicate ReservedHere(s: string, start: nat, end: nat, brackets: seq<char>)
    requires start <= end <= |s|
  {
    IsReserved(s[start..end]) && !(start > 0 && s[start - 1] == '.') && !IsKey(s, end, brackets)
  }

  ghost predicate OpensSql(s: string, start: nat, end: nat) { IsText(s, start, end, "sql") && HeadReads(s, end) }

  ghost predicate OpensDatabase(s: string, start: nat, end: nat) {
    IsText(s, start, end, "database") && NameAndCall(s, end)
  }

  ghost predicate OpensWindow(s: string, start: nat, end: nat) {
    IsText(s, start, end, "window") && NameAndCall(s, end)
  }

  /** None of these: a name. */
  ghost predicate IsName(s: string, start: nat, end: nat, brackets: seq<char>)
    requires start <= end <= |s|
  {
    && !EndsConsider(s, start, end) && !ReservedHere(s, start, end, brackets)
    && !OpensSql(s, start, end) && !OpensDatabase(s, start, end) && !OpensWindow(s, start, end)
  }

  /** The column is that of the innermost open `consider`; past 64 of them, what is read there. */
  predicate AtConsider(column: int, considers: seq<int>, past: int) {
    considers != [] && column == if |considers| <= 64 then considers[|considers| - 1] else past
  }

  /** The kind of a word and where its token ends, from the text. */
  ghost predicate WordMeans(s: string, start: nat, end: nat, column: int, ctx: Context, past: int, r: Scan)
    requires start <= end <= |s|
  {
    var branch := ReservedHere(s, start, end, ctx.brackets) && AtConsider(column, ctx.considers, past);
    && (r.kind == EndConsider <==> EndsConsider(s, start, end))
    && (r.kind == SqlOpen <==> OpensSql(s, start, end))
    && (r.kind == DatabaseOpen <==> OpensDatabase(s, start, end))
    && (r.kind == WindowOpen <==> OpensWindow(s, start, end))
    && (r.kind == ConsiderIf <==> branch && IsText(s, start, end, "if"))
    && (r.kind == ConsiderElse <==> branch && IsText(s, start, end, "else"))
    && (r.kind == QualifiedIdent <==> IsName(s, start, end, ctx.brackets) && exists e :: CallEnds(s, end, e))
    && (if r.kind == EndConsider then ConsiderEnds(s, end, r.end)
        else if r.kind == QualifiedIdent then CallEnds(s, end, r.end)
        else r.end == end)
  }

  /** The words that begin blocks are not reserved; `if`, `else` and `end` are. */
  lemma BlockWords(text: string)
    ensures IsWord(text, "sql") || IsWord(text, "database") || IsWord(text, "window") ==> !IsReserved(text)
    ensures IsWord(text, "if") || IsWord(text, "else") || IsWord(text, "end") ==> IsReserved(text)
    ensures IsWord(text, "sql") ==> !IsWord(text, "database") && !IsWord(text, "window") && !IsWord(text, "end")
    ensures IsWord(text, "database") ==> !IsWord(text, "window") && !IsWord(text, "end")
    ensures IsWord(text, "window") ==> !IsWord(text, "end")
    ensures IsWord(text, "end") || IsWord(text, "if") ==> !IsWord(text, "else")
    ensures IsWord(text, "end") ==> !IsWord(text, "if")
  {
    var word := Lowered(text);
    ReservedIff(text);
    hide Reserved;
    assert IsReserved(text) <==> Reserved(word);
    hide IsReserved;
    LoweredIs(text, "sql");
    LoweredIs(text, "database");
    LoweredIs(text, "window");
    LoweredIs(text, "if");
    LoweredIs(text, "else");
    LoweredIs(text, "end");
    hide IsWord, Lowered;
    NotReserved();
    Different(word);
  }

  function Lowered(text: string): string { seq(|text|, i requires 0 <= i < |text| => Lower(text[i])) }

  lemma LoweredIs(text: string, word: string)
    ensures IsWord(text, word) <==> Lowered(text) == word
  {
  }

  lemma NotReserved()
    ensures !Reserved("sql") && !Reserved("database") && !Reserved("window")
    ensures Reserved("if") && Reserved("else") && Reserved("end")
  {
  }

  lemma Different(w: string)
    ensures w == "sql" ==> w != "database" && w != "window" && w != "end"
    ensures w == "database" ==> w != "window" && w != "end"
    ensures w == "window" ==> w != "end"
    ensures w == "end" || w == "if" ==> w != "else"
    ensures w == "end" ==> w != "if"
  {
    assert |"sql"| == 3 && "sql"[0] == 's' && "end"[0] == 'e' && |"end"| == 3;
  }

  lemma WordKindMeans(s: string, start: nat, end: nat)
    requires start < end <= |s|
    ensures var k := WordKind(s, start, end);
      && (k.Keyword? <==> IsReserved(s[start..end]) && !(start > 0 && s[start - 1] == '.'))
      && (k.Keyword? ==> IsText(s, start, end, k.word))
      && (k == SqlOpen <==> OpensSql(s, start, end))
      && (k == DatabaseOpen <==> OpensDatabase(s, start, end))
      && (k == WindowOpen <==> OpensWindow(s, start, end))
      && (k == Ident || k.Keyword? || k == SqlOpen || k == DatabaseOpen || k == WindowOpen)
  {
    var text := s[start..end];
    hide Reserved, SqlHead, NameAndParenthesis, HeadReads, NameAndCall, IsReserved;
    WordKindIff(s, start, end);
    BlockWords(text);
    SqlHeadIs(s, end);
    NameAndParenthesisIs(s, end);
    assert WordKind(s, start, end).Keyword? ==> WordKind(s, start, end).word == Lowered(text);
    LoweredIs(text, Lowered(text));
    hide IsWord;
  }

  /** The head of a block is not the key of a record. */
  lemma HeadIsNoKey(s: string, i: nat)
    requires i <= |s| && (HeadReads(s, i) || NameAndCall(s, i))
    ensures !Then(s, i, BlankOrCR, Colon)
  {
    ThenIs(s, i, BlankOrCR, Colon);
    if HeadReads(s, i) {
      SqlHeadIs(s, i);
      SqlIsNoKey(s, i);
    } else {
      var a, b :| Only(s, i, a, Blank) && WordIn(s, a, b) && Then(s, b, Blank, Parenthesis);
      assert Only(s, i, a, BlankOrCR);
      OverIs(s, i, a, BlankOrCR);
    }
  }

  /** What a word is before it is looked at as a branch or with a dot after it. */
  lemma NamedMeans(s: string, start: nat, end: nat, brackets: seq<char>)
    requires start < end <= |s|
    ensures var k := NameOrWord(s, WordKind(s, start, end), end, brackets);
      && (k.Keyword? <==> ReservedHere(s, start, end, brackets)) && (k.Keyword? ==> IsText(s, start, end, k.word))
      && (k == SqlOpen <==> OpensSql(s, start, end))
      && (k == DatabaseOpen <==> OpensDatabase(s, start, end))
      && (k == WindowOpen <==> OpensWindow(s, start, end))
      && (k == Ident || k.Keyword? || k == SqlOpen || k == DatabaseOpen || k == WindowOpen)
  {
    WordKindMeans(s, start, end);
    KeyIs(s, end, brackets);
    if HeadReads(s, end) || NameAndCall(s, end) {
      HeadIsNoKey(s, end);
    }
    hide WordKind, InBrace, HeadReads, NameAndCall, Then, IsReserved, IsWord, Over;
  }

  /** What a word is, whatever the text and the context: its kind, and where its token ends. */
  lemma WordIs(s: string, start: nat, end: nat, column: int, ctx: Context, past: int)
    requires WordIn(s, start, end)
    ensures start < |s| && WordMeans(s, start, end, column, ctx, past, WordFrom(s, start, column, ctx, past))
  {
    WordInIs(s, start, end);
    assert start < end <= |s| && end == Over(s, start + 1, WordChar);
    hide Over, WordIn, HeadReads, NameAndCall, CallEnds, ConsiderEnds, IsReserved, IsWord, WordKind, IsKey;
    BlockWords(s[start..end]);
    ConsiderIs(s, end);
    if EndsConsider(s, start, end) {
      hide NameOrWord, QualifiedFrom, Branch;
    } else {
      hide ConsiderAfter, EndsConsider;
      NotEndConsider(s, start, end, column, ctx, past);
    }
  }

  lemma NotEndConsider(s: string, start: nat, end: nat, column: int, ctx: Context, past: int)
    requires start < end <= |s| && end == Over(s, start + 1, WordChar) && !EndsConsider(s, start, end)
    ensures WordMeans(s, start, end, column, ctx, past, WordFrom(s, start, column, ctx, past))
  {
    hide Over, OpensSql, OpensDatabase, OpensWindow, ReservedHere, CallEnds, ConsiderEnds, IsWord, AtConsider,
      NameOrWord, QualifiedFrom, ConsiderAfter, Branch, WordKind;
    var named := NameOrWord(s, WordKind(s, start, end), end, ctx.brackets);
    var r := WordFrom(s, start, column, ctx, past);
    assert EndsConsider(s, start, end) <==> IsWord(s[start..end], "end") && ConsiderAfter(s, end) > end by {
      ConsiderIs(s, end);
    }
    assert r == if named == Ident && QualifiedFrom(s, end) > end then Whole(QualifiedIdent, start, QualifiedFrom(s, end))
                else Whole(Branch(named, column, ctx.considers, past), start, end);
    hide WordFrom;
    NamedMeans(s, start, end, ctx.brackets);
    QualifiedIs(s, end);
    BranchMeans(named, column, ctx.considers, past);
    BranchWords(s[start..end]);
    assert named == Ident <==> IsName(s, start, end, ctx.brackets);
    hide EndsConsider, IsName;
  }

  lemma BranchWords(text: string)
    ensures forall w :: IsWord(text, w) ==> (IsWord(text, "if") <==> w == "if") && (IsWord(text, "else") <==> w == "else")
  {
    forall w | IsWord(text, w) ensures (IsWord(text, "if") <==> w == "if") && (IsWord(text, "else") <==> w == "else") {
      LoweredIs(text, w);
      LoweredIs(text, "if");
      LoweredIs(text, "else");
    }
  }

  lemma BranchMeans(kind: Kind, column: int, considers: seq<int>, past: int)
    ensures var k := Branch(kind, column, considers, past);
      && (k == ConsiderIf <==> kind == ConsiderIf || (kind == Keyword("if") && AtConsider(column, considers, past)))
      && (k == ConsiderElse <==> kind == ConsiderElse || (kind == Keyword("else") && AtConsider(column, considers, past)))
      && (k == kind || k == ConsiderIf || k == ConsiderElse)
  {
  }

  // ----- the end of an SQL body -----

  /** A line that reads `end sql`: blanks, `end`, blanks, `sql`, and nothing more on it. */
  ghost predicate EndSqlReads(s: string, i: nat) {
    exists a, b :: EndSqlParts(s, i, a, b)
  }

  ghost predicate EndSqlParts(s: string, i: nat, a: nat, b: nat) {
    && Only(s, i, a, Blank) && IsText(s, a, a + 3, "end") && a + 3 < b && Only(s, a + 3, b, Blank)
    && IsText(s, b, b + 3, "sql") && LineEnds(s, b + 3)
  }

  lemma ThreeLetters(s: string, i: nat, word: string)
    requires |word| == 3 && NUL !in word
    ensures IsText(s, i, i + 3, word) <==> WordAt(s, i, word) && i + 3 <= |s|
  {
    if i + 3 <= |s| {
      assert s[i..i + 3] == [s[i], s[i + 1], s[i + 2]];
    }
  }

  lemma SqlEndIs(s: string, i: nat)
    requires i <= |s|
    ensures SqlEnd(s, i) <==> EndSqlReads(s, i)
  {
    if SqlEnd(s, i) {
      EndIsRead(s, i);
    }
    if a, b :| EndSqlParts(s, i, a, b) {
      EndIsFound(s, i, a, b);
    }
  }

  lemma EndIsRead(s: string, i: nat)
    requires i <= |s| && SqlEnd(s, i)
    ensures EndSqlReads(s, i)
  {
    var p := Over(s, i, Blank);
    var q := Over(s, p + 3, Blank);
    hide Over, WordAt, LineEnds, IsText, EndOfHead, Blank;
    ThreeLetters(s, p, "end");
    ThreeLetters(s, q, "sql");
    BlanksMove(s, p + 3);
    LineEndsIs(s, q + 3);
    assert Only(s, i, p, Blank) && Only(s, p + 3, q, Blank);
    assert EndSqlParts(s, i, p, q);
  }

  lemma EndIsFound(s: string, i: nat, a: nat, b: nat)
    requires i <= |s| && EndSqlParts(s, i, a, b)
    ensures SqlEnd(s, i)
  {
    hide LineEnds, EndOfHead;
    assert s[a..a + 3][0] == s[a] && s[b..b + 3][0] == s[b];
    assert !Blank(s[a]) && !Blank(s[b]) && Blank(s[a + 3]);
    OverIs(s, i, a, Blank);
    OverIs(s, a + 3, b, Blank);
    ThreeLetters(s, a, "end");
    ThreeLetters(s, b, "sql");
    LineEndsIs(s, b + 3);
    hide Over, WordAt, IsText, Only, Blank;
  }

  // ----- what stands between tokens -----

  /** A blank, a byte of a comment, or inside brackets a line break. */
  ghost predicate Passed(s: string, i: nat, k: nat, inBrackets: bool)
    requires k < |s|
  {
    BlankOrCR(s[k]) || (inBrackets && s[k] == '\n') || InComment(s, i, k)
  }

  ghost predicate InComment(s: string, i: nat, k: nat) {
    exists c :: i <= c <= k < |s| && s[c] == '\'' && Only(s, c, k + 1, NotBreak)
  }

  /** Everything passed is a blank or in a comment, and the first byte that is neither is where a token begins. */
  lemma {:induction false} SkipIs(s: string, i: nat, inBrackets: bool)
    requires i <= |s|
    ensures var r := Skip(s, i, inBrackets);
      (forall k :: i <= k < r ==> Passed(s, i, k, inBrackets)) && (r < |s| ==> !Passed(s, i, r, inBrackets))
    decreases |s| - i
  {
    if i < |s| {
      if BlankOrCR(s[i]) || (inBrackets && s[i] == '\n') {
        SkipIs(s, i + 1, inBrackets);
        CommentsFrom(s, i, i + 1);
        hide InComment;
        forall k | i < k < |s| ensures Passed(s, i, k, inBrackets) == Passed(s, i + 1, k, inBrackets) {
        }
        assert Passed(s, i, i, inBrackets);
      } else if s[i] == '\'' {
        var m := Over(s, i + 1, NotBreak);
        SkipIs(s, m, inBrackets);
        CommentEnds(s, i, m);
        CommentFrom(s, i, m);
        hide InComment;
        forall k | m <= k < |s| ensures Passed(s, i, k, inBrackets) == Passed(s, m, k, inBrackets) {
        }
      } else if InComment(s, i, i) {
        assert false;
      }
    }
  }

  lemma CommentsFrom(s: string, i: nat, m: nat)
    requires i <= m <= |s| && forall c :: i <= c < m ==> s[c] != '\''
    ensures forall k :: m <= k < |s| ==> (InComment(s, i, k) <==> InComment(s, m, k))
  {
  }

  lemma CommentFrom(s: string, i: nat, m: nat)
    requires i < m <= |s| && s[i] == '\'' && Only(s, i, m, NotBreak)
    ensures forall k :: i <= k < m ==> InComment(s, i, k)
  {
    forall k | i <= k < m ensures InComment(s, i, k) {
      assert Only(s, i, k + 1, NotBreak);
    }
  }

  lemma CommentEnds(s: string, i: nat, m: nat)
    requires i <= m <= |s| && (m < |s| ==> s[m] == '\n')
    ensures forall k :: m <= k < |s| ==> (InComment(s, i, k) <==> InComment(s, m, k))
  {
    forall k | m <= k < |s| ensures InComment(s, i, k) <==> InComment(s, m, k) {
      var next := k + 1;
      forall c | i <= c <= m ensures !Only(s, c, next, NotBreak) {
        assert !NotBreak(s[m]);
      }
    }
  }
}
