/**
  Where strings and the contents of lenses end (`src/lexer.c`), told from the text alone: by how many backslashes
  stand before a quote, and by which quotes open and close.
*/
module LexerStrings {
  import opened Chars
  import opened LexerText
  import opened LexerSpec

  /** How many backslashes stand right before `j`, from `i` on. */
  function Slashes(s: string, i: nat, j: nat): nat
    requires j <= |s|
  {
    if i < j && s[j - 1] == '\\' then Slashes(s, i, j - 1) + 1 else 0
  }

  predicate Even(n: nat) { n % 2 == 0 }

  /** A quote after an even run of backslashes. */
  predicate Closes(s: string, i: nat, j: nat) {
    j < |s| && s[j] == '"' && Even(Slashes(s, i, j))
  }

  /** `{`, digits of base sixteen, `}`. */
  ghost predicate UnicodeAt(s: string, i: nat) {
    exists e :: i + 1 < e < |s| && s[i] == '{' && s[e] == '}' && forall k :: i < k < e ==> HexDigit(s[k])
  }

  /** A backslash that escapes, at the end, before a line break, or before a `u` that no code follows. */
  ghost predicate BadEscape(s: string, i: nat, j: nat) {
    && j < |s| && s[j] == '\\' && Even(Slashes(s, i, j))
    && (j + 1 == |s| || s[j + 1] == '\n' || (s[j + 1] == 'u' && !UnicodeAt(s, j + 2)))
  }

  /** The first quote that closes, with no bad escape before it. */
  ghost predicate GoodEnd(s: string, i: nat, c: nat) {
    i <= c && Closes(s, i, c) && forall j :: i <= j < c ==> !Closes(s, i, j) && !BadEscape(s, i, j)
  }

  ghost predicate HasGoodEnd(s: string, i: nat) { exists c :: GoodEnd(s, i, c) }

  lemma UnicodeIff(s: string, i: nat)
    requires i <= |s|
    ensures UnicodeFrom(s, i).0 <==> UnicodeAt(s, i)
    ensures var r := UnicodeFrom(s, i);
      r.0 ==> i + 2 < r.1 && s[i] == '{' && s[r.1 - 1] == '}' && forall k :: i < k < r.1 - 1 ==> HexDigit(s[k])
  {
    if At(s, i) == '{' {
      var end := Over(s, i + 1, HexDigit);
      if e :| i + 1 < e < |s| && s[i] == '{' && s[e] == '}' && forall k :: i < k < e ==> HexDigit(s[k]) {
        assert e == end by {
          assert !HexDigit('}');
        }
      }
    }
  }

  /** What ends, or spoils, a string from `p` on. */
  ghost predicate EndsFrom(s: string, i: nat, p: nat, r: (Kind, nat)) {
    if r.0 == StringLit then
      p < r.1 && Closes(s, i, r.1 - 1) && forall j :: p <= j < r.1 - 1 ==> !Closes(s, i, j) && !BadEscape(s, i, j)
    else forall c :: p <= c && Closes(s, i, c) ==> BadBefore(s, i, p, c)
  }

  ghost predicate BadBefore(s: string, i: nat, p: nat, c: nat) {
    exists j :: p <= j < c && BadEscape(s, i, j)
  }

  /** Bytes from `p` up to `q` that neither close nor spoil leave the question to what follows. */
  lemma EndsLater(s: string, i: nat, p: nat, q: nat, r: (Kind, nat))
    requires p <= q && EndsFrom(s, i, q, r)
    requires forall j :: p <= j < q ==> !Closes(s, i, j) && !BadEscape(s, i, j)
    ensures EndsFrom(s, i, p, r)
  {
    hide Closes, BadEscape;
    if r.0 != StringLit {
      forall c | p <= c && Closes(s, i, c) ensures BadBefore(s, i, p, c) {
        var j :| q <= j < c && BadEscape(s, i, j);
        assert p <= j < c;
      }
    }
  }

  lemma SpoiltHere(s: string, i: nat, p: nat, r: (Kind, nat))
    requires r.0 != StringLit && BadEscape(s, i, p)
    ensures EndsFrom(s, i, p, r)
  {
    forall c | p <= c && Closes(s, i, c) ensures BadBefore(s, i, p, c) {
      assert p <= p < c && BadEscape(s, i, p);
    }
  }

  /** From any place between escapes. */
  lemma {:induction false} StringScan(s: string, i: nat, p: nat)
    requires i <= p <= |s| && Even(Slashes(s, i, p))
    ensures EndsFrom(s, i, p, StringFrom(s, p))
    decreases |s| - p
  {
    hide EndsFrom, UnicodeAt;
    var r := StringFrom(s, p);
    if p == |s| {
      NothingLeft(s, i, r);
    } else if s[p] == '"' {
      ClosedHere(s, i, p);
    } else if s[p] != '\\' {
      StringScan(s, i, p + 1);
      EndsLater(s, i, p, p + 1, r);
    } else if p + 1 == |s| || s[p + 1] == '\n' {
      SpoiltHere(s, i, p, r);
    } else if s[p + 1] != 'u' {
      EscapedPair(s, i, p);
      StringScan(s, i, p + 2);
      EndsLater(s, i, p, p + 2, r);
    } else {
      UnicodeIff(s, p + 2);
      if UnicodeFrom(s, p + 2).0 {
        var q := UnicodeFrom(s, p + 2).1;
        EscapedCode(s, i, p, q);
        StringScan(s, i, q);
        EndsLater(s, i, p, q, r);
      } else {
        SpoiltHere(s, i, p, r);
      }
    }
  }

  lemma NothingLeft(s: string, i: nat, r: (Kind, nat))
    requires r.0 != StringLit
    ensures EndsFrom(s, i, |s|, r)
  {
  }

  lemma ClosedHere(s: string, i: nat, p: nat)
    requires Closes(s, i, p)
    ensures EndsFrom(s, i, p, (StringLit, p + 1))
  {
  }

  lemma EscapedPair(s: string, i: nat, p: nat)
    requires i <= p && p + 1 < |s| && s[p] == '\\' && Even(Slashes(s, i, p)) && s[p + 1] != '\n' && s[p + 1] != 'u'
    ensures Even(Slashes(s, i, p + 2))
    ensures forall j :: p <= j < p + 2 ==> !Closes(s, i, j) && !BadEscape(s, i, j)
  {
    assert Slashes(s, i, p + 1) == Slashes(s, i, p) + 1;
    hide UnicodeAt;
  }

  lemma EscapedCode(s: string, i: nat, p: nat, q: nat)
    requires i <= p && p + 4 < q <= |s| && s[p] == '\\' && Even(Slashes(s, i, p)) && s[p + 1] == 'u' && UnicodeAt(s, p + 2)
    requires s[p + 2] == '{' && s[q - 1] == '}' && forall k :: p + 2 < k < q - 1 ==> HexDigit(s[k])
    ensures Even(Slashes(s, i, q))
    ensures forall j :: p <= j < q ==> !Closes(s, i, j) && !BadEscape(s, i, j)
  {
    hide UnicodeAt;
    forall j | p <= j < q ensures s[j] != '"' && (j > p ==> s[j] != '\\') {
    }
  }

  /** A string ends at the first quote after an even run of backslashes, every quote before it following an odd one,
      if no escape before it is bad; otherwise it is an error. */
  lemma StringIff(s: string, i: nat)
    requires i <= |s|
    ensures var r := StringFrom(s, i);
      && (r.0 == StringLit <==> HasGoodEnd(s, i))
      && (r.0 == StringLit ==> GoodEnd(s, i, r.1 - 1))
  {
    StringScan(s, i, i);
    var r := StringFrom(s, i);
    hide StringFrom, Closes, BadEscape;
    if r.0 == StringLit {
      assert GoodEnd(s, i, r.1 - 1);
    } else {
      NoGoodEnd(s, i, r);
    }
  }

  lemma NoGoodEnd(s: string, i: nat, r: (Kind, nat))
    requires r.0 != StringLit && EndsFrom(s, i, i, r)
    ensures !HasGoodEnd(s, i)
  {
    hide Closes, BadEscape;
    assert forall c :: i <= c && Closes(s, i, c) ==> BadBefore(s, i, i, c);
  }

  /* ---- lenses ---- */

  /** Whether `j` stands inside a string that a quote from `i` on has opened; there, and only there, a backslash
      escapes. */
  predicate Inside(s: string, i: nat, j: nat)
    requires j <= |s|
    decreases j, 0
  {
    i < j && if s[j - 1] == '"' && !Escaped(s, i, j - 1) then !Inside(s, i, j - 1) else Inside(s, i, j - 1)
  }

  predicate Escaped(s: string, i: nat, j: nat)
    requires j <= |s|
    decreases j, 1
  {
    Inside(s, i, j) && !Even(Slashes(s, i, j))
  }

  /** A brace outside strings. */
  predicate EndsLens(s: string, i: nat, j: nat) { j < |s| && s[j] == '}' && !Inside(s, i, j) }

  /** A line break that no backslash inside a string escapes. */
  predicate BreaksLens(s: string, i: nat, j: nat) { j < |s| && s[j] == '\n' && !Escaped(s, i, j) }

  lemma {:induction false} LensScan(s: string, i: nat, p: nat)
    requires i <= p <= |s|
    ensures var r := LensFrom(s, p, Inside(s, i, p), Escaped(s, i, p));
      && (forall j :: p <= j < r.1 ==> !EndsLens(s, i, j) && !BreaksLens(s, i, j))
      && (r.0 == LensContent ==> EndsLens(s, i, r.1))
      && (r.0 == Error ==> r.1 == |s| || BreaksLens(s, i, r.1))
    decreases |s| - p
  {
    if p < |s| {
      var inside, escaped := Inside(s, i, p), Escaped(s, i, p);
      InsideNext(s, i, p);
      if escaped || (inside && s[p] == '\\') || !(EndsLens(s, i, p) || BreaksLens(s, i, p)) {
        LensScan(s, i, p + 1);
      }
      hide Inside, Escaped;
    }
  }

  /** One byte on: an unescaped quote opens or closes, and inside a string an unescaped backslash escapes. */
  lemma InsideNext(s: string, i: nat, p: nat)
    requires i <= p < |s|
    ensures Inside(s, i, p + 1) == if s[p] == '"' && !Escaped(s, i, p) then !Inside(s, i, p) else Inside(s, i, p)
    ensures Escaped(s, i, p + 1) == (Inside(s, i, p) && !Escaped(s, i, p) && s[p] == '\\')
  {
    SlashesInside(s, i, p);
  }

  lemma SlashesInside(s: string, i: nat, p: nat)
    requires i <= p < |s|
    ensures Slashes(s, i, p + 1) == if s[p] == '\\' then Slashes(s, i, p) + 1 else 0
  {
  }

  /** The content of a lens ends at the first brace outside strings, if no line break that is not escaped in a string
      stands before it; otherwise it is an error, at the first such break or at the end. */
  lemma LensIff(s: string, i: nat)
    requires i <= |s|
    ensures var r := LensFrom(s, i, false, false);
      && (forall j :: i <= j < r.1 ==> !EndsLens(s, i, j) && !BreaksLens(s, i, j))
      && (r.0 == LensContent <==> EndsLens(s, i, r.1))
      && (r.0 == Error <==> r.1 == |s| || BreaksLens(s, i, r.1))
  {
    LensScan(s, i, i);
  }
}
