/**
  What a brace begins and which symbol is read (`src/lexer.c`), told from the bytes: an inline modifier, which is a
  name alone or a phrase in braces on one line, or a bracket; and the longest of the symbols.
*/
module LexerBraces {
  import opened Chars
  import opened LexerText
  import opened LexerSpec
  import opened LexerStrings
  import opened LexerTheorems
  import opened LexerWords

  // ----- names joined by dots -----

  /** Words joined by dots, and no byte that would go on with them. */
  predicate Dotted(s: string, a: nat, b: nat) {
    && a < b <= |s| && WordStart(s[a])
    && (forall k :: a < k < b ==> GoesOn(s, k))
    && !GoesOn(s, b)
  }

  predicate GoesOn(s: string, k: nat) { WordChar(At(s, k)) || (At(s, k) == '.' && WordStart(At(s, k + 1))) }

  lemma {:induction false} DotsGoOn(s: string, i: nat)
    requires i <= |s| && !WordChar(At(s, i))
    ensures var r := OverDotted(s, i); !GoesOn(s, r) && forall k :: i <= k < r ==> GoesOn(s, k)
    decreases |s| - i
  {
    if At(s, i) == '.' && WordStart(At(s, i + 1)) {
      var next := Over(s, i + 1, WordChar);
      DotsGoOn(s, next);
      assert forall k :: i + 1 <= k < next ==> WordChar(At(s, k));
    }
  }

  lemma DottedIs(s: string, a: nat, b: nat)
    requires a <= |s|
    ensures Dotted(s, a, b) <==> WordStart(At(s, a)) && b == OverDotted(s, Over(s, a, WordChar))
  {
    if WordStart(At(s, a)) {
      var i := Over(s, a, WordChar);
      DotsGoOn(s, i);
      var r := OverDotted(s, i);
      assert forall k :: a <= k < i ==> WordChar(At(s, k));
      hide OverDotted, Over;
      assert Dotted(s, a, r);
      if Dotted(s, a, b) {
        OneDotted(s, a, b, r);
      }
    }
  }

  lemma OneDotted(s: string, a: nat, b: nat, c: nat)
    requires Dotted(s, a, b) && Dotted(s, a, c)
    ensures b == c
  {
    assert b < c ==> GoesOn(s, b);
    assert c < b ==> GoesOn(s, c);
  }

  // ----- the brace that closes -----

  /** Braces opened less braces closed in `s[d..k]`, outside strings. */
  function Level(s: string, d: nat, k: nat): int
    requires k <= |s|
    decreases k
  {
    if k <= d then 0
    else
      var one := if s[k - 1] == '{' then 1 else if s[k - 1] == '}' then -1 else 0;
      Level(s, d, k - 1) + if Inside(s, d, k - 1) then 0 else one
  }

  /** A brace outside strings at which none opened since `d` is left open. */
  predicate Closer(s: string, d: nat, c: nat) {
    c < |s| && s[c] == '}' && !Inside(s, d, c) && Level(s, d, c) == 0
  }

  /** The first such brace, on the same line. */
  predicate ClosesAt(s: string, d: nat, c: nat) {
    d <= c && Closer(s, d, c) && forall k :: d <= k < c ==> s[k] != '\n' && !Closer(s, d, k)
  }

  lemma {:induction false} ClosingScan(s: string, d: nat, p: nat)
    requires d <= p <= |s| && Level(s, d, p) >= 0
    ensures var r := Closing(s, p, Inside(s, d, p), Escaped(s, d, p), Level(s, d, p));
      && (r.Close? ==> Closer(s, d, r.at) && forall k :: p <= k < r.at ==> !Closer(s, d, k))
      && (r.NoClose? ==> forall c :: p <= c && Closer(s, d, c) ==> exists k :: p <= k < c && s[k] == '\n')
    decreases |s| - p
  {
    if p < |s| && s[p] != '\n' {
      InsideNext(s, d, p);
      assert Escaped(s, d, p) ==> Inside(s, d, p);
      hide Inside, Escaped;
      var r := Closing(s, p, Inside(s, d, p), Escaped(s, d, p), Level(s, d, p));
      if !Closer(s, d, p) {
        assert Level(s, d, p + 1) >= 0;
        ClosingScan(s, d, p + 1);
        assert r == Closing(s, p + 1, Inside(s, d, p + 1), Escaped(s, d, p + 1), Level(s, d, p + 1));
      }
    }
  }

  lemma ClosingIs(s: string, d: nat)
    requires d <= |s|
    ensures var r := Closing(s, d, false, false, 0);
      && (r.Close? ==> ClosesAt(s, d, r.at))
      && (r.NoClose? ==> forall c :: !ClosesAt(s, d, c))
    ensures forall c, c' :: ClosesAt(s, d, c) && ClosesAt(s, d, c') ==> c == c'
  {
    ClosingScan(s, d, d);
    hide Closing, Closer;
    forall c, c' | ClosesAt(s, d, c) && ClosesAt(s, d, c') ensures c == c' {
      assert c < c' ==> !Closer(s, d, c);
      assert c' < c ==> !Closer(s, d, c');
    }
  }

  // ----- inline modifiers -----

  predicate ValueEnd(c: char) { c == ',' || c == ')' || c == '\n' || c == '\r' || c == NUL }

  predicate FieldMark(c: char) { c == ':' || c == '=' || c == '(' }

  /** Blanks, a name from `a`, blanks, and the next byte at `c`. */
  ghost predicate NameTo(s: string, i: nat, a: nat, c: nat) {
    Only(s, i, a, Blank) && exists b :: Dotted(s, a, b) && Only(s, b, c, Blank) && !Blank(At(s, c))
  }

  /** The braces hold a name and nothing else. */
  ghost predicate NameAlone(s: string, i: nat, a: nat, c: nat) { NameTo(s, i, a, c) && At(s, c) == '}' }

  /** They hold a phrase: a name that does not begin a record or a call, and more, up to the brace at `c`. */
  ghost predicate Phrase(s: string, i: nat, a: nat, c: nat) {
    exists d :: NameTo(s, i, a, d) && At(s, d) != '}' && !FieldMark(At(s, d)) && ClosesAt(s, d, c)
  }

  /** An inline modifier and what follows it: a value, or a prefix. */
  ghost predicate ValueAt(s: string, i: nat, a: nat, c: nat) {
    NameAlone(s, i, a, c) && Then(s, c + 1, Blank, ValueEnd)
  }

  ghost predicate PrefixAt(s: string, i: nat, a: nat, c: nat) {
    (NameAlone(s, i, a, c) && !Then(s, c + 1, Blank, ValueEnd)) || Phrase(s, i, a, c)
  }

  ghost predicate HasValue(s: string, i: nat) { exists a: nat, c: nat :: ValueAt(s, i, a, c) }

  ghost predicate HasPrefix(s: string, i: nat) { exists a: nat, c: nat :: PrefixAt(s, i, a, c) }

  /** The end of what stands before the blanks before `c`. */
  predicate LastBefore(s: string, a: nat, e: nat, c: nat) {
    a < e <= c <= |s| && !Blank(s[e - 1]) && Only(s, e, c, Blank)
  }

  lemma NameToIs(s: string, i: nat)
    requires i <= |s|
    ensures var a := Over(s, i, Blank);
      var d := Over(s, OverDotted(s, Over(s, a, WordChar)), Blank);
      forall a', c: nat :: NameTo(s, i, a', c) <==> WordStart(At(s, a)) && a' == a && c == d
  {
    var a := Over(s, i, Blank);
    var b := OverDotted(s, Over(s, a, WordChar));
    var d := Over(s, b, Blank);
    forall a', c: nat ensures NameTo(s, i, a', c) <==> WordStart(At(s, a)) && a' == a && c == d {
      if NameTo(s, i, a', c) {
        var b' :| Dotted(s, a', b') && Only(s, b', c, Blank) && !Blank(At(s, c));
        OverIs(s, i, a', Blank);
        DottedIs(s, a', b');
        OverIs(s, b', c, Blank);
      }
      if WordStart(At(s, a)) {
        DottedIs(s, a, b);
        assert Only(s, i, a, Blank) && Only(s, b, d, Blank);
        assert NameTo(s, i, a, d);
      }
    }
  }

  lemma {:induction false} BlanksBack(s: string, low: nat, i: nat)
    requires low < i <= |s| && !Blank(s[low])
    ensures LastBefore(s, low, BackOverBlanks(s, low, i), i)
    decreases i
  {
    if Blank(s[i - 1]) {
      BlanksBack(s, low, i - 1);
    }
  }

  lemma NameEnds(s: string, a: nat, b: nat, c: nat)
    requires Dotted(s, a, b) && Only(s, b, c, Blank)
    ensures LastBefore(s, a, b, c)
  {
    assert b - 1 > a ==> GoesOn(s, b - 1);
    assert At(s, b - 1) == '.' ==> !WordChar(At(s, b));
  }

  ghost predicate NoModifierAt(s: string, i: nat) {
    (forall a: nat, c: nat :: !ValueAt(s, i, a, c)) && forall a: nat, c: nat :: !PrefixAt(s, i, a, c)
  }

  ghost predicate ModifierIn(s: string, i: nat, a: nat, e: nat, c: nat, names: bool) {
    && LastBefore(s, a, e, c)
    && (if names then ValueAt(s, i, a, c) && forall a': nat, c': nat :: !PrefixAt(s, i, a', c')
        else PrefixAt(s, i, a, c) && forall a': nat, c': nat :: !ValueAt(s, i, a', c'))
  }

  /** `NameTo` holds for these only. */
  ghost predicate OnlyName(s: string, i: nat, a: nat, d: nat) {
    NameTo(s, i, a, d) && forall a': nat, d': nat :: NameTo(s, i, a', d') ==> a' == a && d' == d
  }

  lemma AloneIs(s: string, i: nat, a: nat, b: nat, d: nat)
    requires i <= |s| && d < |s| && OnlyName(s, i, a, d) && At(s, d) == '}' && LastBefore(s, a, b, d)
    ensures ModifierIn(s, i, a, b, d, ValueEnd(At(s, Over(s, d + 1, Blank))))
  {
    ThenIs(s, d + 1, Blank, ValueEnd);
    hide NameTo, Then, LastBefore, ClosesAt, Over;
  }

  lemma PhraseIs(s: string, i: nat, a: nat, d: nat)
    requires i <= |s| && a < d <= |s| && OnlyName(s, i, a, d) && At(s, d) != '}' && !FieldMark(At(s, d)) && !Blank(s[a])
    ensures match Closing(s, d, false, false, 0)
      case NoClose => NoModifierAt(s, i)
      case Close(c) => ModifierIn(s, i, a, BackOverBlanks(s, a, c), c, false)
  {
    ClosingIs(s, d);
    var r := Closing(s, d, false, false, 0);
    hide Closing, ClosesAt, NameTo, Then, LastBefore;
    if r.Close? {
      BlanksBack(s, a, r.at);
      assert Phrase(s, i, a, r.at);
    }
  }

  lemma NeitherIs(s: string, i: nat, a: nat, d: nat)
    requires OnlyName(s, i, a, d) && FieldMark(At(s, d))
    ensures NoModifierAt(s, i)
  {
    hide NameTo, Then;
  }

  /** What follows a brace, by the first name in it and the byte after that. */
  lemma ModifierIs(s: string, i: nat)
    requires i <= |s|
    ensures match ModifierAfter(s, i)
      case NoModifier => NoModifierAt(s, i)
      case Modifier(a, e, c, names) => ModifierIn(s, i, a, e, c, names)
  {
    hide *;
    var a := Over(s, i, Blank);
    var b := OverDotted(s, Over(s, a, WordChar));
    var d := Over(s, b, Blank);
    FirstName(s, i);
    ModifierShape(s, i);
    if WordStart(At(s, a)) {
      if At(s, d) == '}' {
        AloneIs(s, i, a, b, d);
      } else if !FieldMark(At(s, d)) {
        PhraseIs(s, i, a, d);
      } else {
        NeitherIs(s, i, a, d);
      }
    }
  }

  lemma ModifierShape(s: string, i: nat)
    requires i <= |s|
    ensures var a := Over(s, i, Blank);
      var b := OverDotted(s, Over(s, a, WordChar));
      var d := Over(s, b, Blank);
      ModifierAfter(s, i) ==
        if !WordStart(At(s, a)) then NoModifier
        else if At(s, d) == '}' then Modifier(a, b, d, ValueEnd(At(s, Over(s, d + 1, Blank))))
        else if FieldMark(At(s, d)) then NoModifier
        else match Closing(s, d, false, false, 0)
          case NoClose => NoModifier
          case Close(c) => Modifier(a, BackOverBlanks(s, a, c), c, false)
  {
    hide Over, OverDotted, Closing, BackOverBlanks, WordStart;
  }

  lemma FirstName(s: string, i: nat)
    requires i <= |s|
    ensures var a := Over(s, i, Blank);
      var b := OverDotted(s, Over(s, a, WordChar));
      var d := Over(s, b, Blank);
      if WordStart(At(s, a)) then OnlyName(s, i, a, d) && LastBefore(s, a, b, d) && a < d && !Blank(s[a])
      else NoModifierAt(s, i)
  {
    var a := Over(s, i, Blank);
    var b := OverDotted(s, Over(s, a, WordChar));
    NameToIs(s, i);
    if WordStart(At(s, a)) {
      DottedIs(s, a, b);
      NameEnds(s, a, b, Over(s, b, Blank));
    }
    hide NameTo, Then, Over, OverDotted, Dotted;
  }

  /** Whether a brace begins an inline modifier and of which kind, what the modifier's span is, and where reading goes
      on: for every text. */
  lemma BraceIs(s: string, at: nat)
    requires at < |s| && s[at] == '{'
    ensures var r, i := BraceFrom(s, at), at + 1;
      && (r.kind == ModifierValue <==> HasValue(s, i))
      && (r.kind == ModifierPrefix <==> HasPrefix(s, i))
      && (r.kind.Inline() ==> LastBefore(s, r.start, r.start + r.length, r.end - 1))
      && (r.kind == ModifierValue ==> ValueAt(s, i, r.start, r.end - 1))
      && (r.kind == ModifierPrefix ==> PrefixAt(s, i, r.start, r.end - 1))
      && (!r.kind.Inline() ==> r == Whole(Open('{'), at, at + 1))
  {
    hide ModifierAfter, ValueAt, PrefixAt, LastBefore;
    ModifierIs(s, at + 1);
    var r, m := BraceFrom(s, at), ModifierAfter(s, at + 1);
    if m.Modifier? {
      assert r == Scan(if m.names then ModifierValue else ModifierPrefix, m.start, m.end - m.start, m.close + 1);
      hide BraceFrom;
      assert r.start + r.length == m.end && r.end - 1 == m.close;
    }
  }

  // ----- symbols -----

  /** What may stand for itself, and what looks like it and may not. */
  predicate Mark(t: string) { IsSymbol(t) || t == "<>" || t == "!" }

  /** The longest mark that the text begins with at `at`. */
  ghost predicate LongestMark(s: string, at: nat, e: nat) {
    at < e <= |s| && Mark(s[at..e]) && forall f :: e < f <= |s| ==> !Mark(s[at..f])
  }

  /** A symbol is the longest mark; it is an error if that is `<>` or a lone `!`, or if there is none. */
  lemma SymbolIs(s: string, at: nat)
    requires at < |s|
    ensures var r := SymbolFrom(s, at);
      && (r.kind.Symbol? <==> exists e: nat :: LongestMark(s, at, e) && IsSymbol(s[at..e]))
      && (r.kind.Symbol? ==> LongestMark(s, at, r.end) && r.kind.text == s[at..r.end])
  {
    SymbolIsItsText(s, at);
    MarksAre(s, at);
    var r := SymbolFrom(s, at);
    if s[at] == '<' && At(s, at + 1) == '>' {
      assert Mark(s[at..at + 2]);
    }
  }

  /** Marks by their bytes. */
  lemma MarksAre(s: string, at: nat)
    requires at < |s|
    ensures forall e :: at < e <= |s| ==>
      (IsSymbol(s[at..e]) <==>
        var c, n := s[at], e - at;
        || (n == 1 && (c == '=' || c == ',' || c == '.' || c == ':' || Doubles(c)))
        || (n == 2 && At(s, at + 1) == '=' && (Doubles(c) || c == '!'))
        || (2 <= n <= 3 && c == '!' && (At(s, at + 1) == '<' || At(s, at + 1) == '>') && (n == 3 ==> At(s, at + 2) == '=')))
    ensures forall e :: at < e <= |s| ==> (s[at..e] == "<>" <==> e == at + 2 && s[at] == '<' && At(s, at + 1) == '>')
    ensures forall e :: at < e <= |s| ==> (s[at..e] == "!" <==> e == at + 1 && s[at] == '!')
  {
    forall e | at < e <= |s| ensures forall k :: 0 <= k < e - at ==> s[at..e][k] == At(s, at + k) {
    }
  }
}
