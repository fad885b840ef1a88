/**
  What editing does to well-formed text (`src/lineedit.c`).  Bytes are inserted one at a time, so the text is
  only required to be well-formed when the keyboard is between codepoints.  It then always is, unless an
  escape sequence takes a byte that begins a longer codepoint: what is left of that codepoint goes in alone.
*/
module EditRuns {
  import opened Bytes
  import opened Utf8
  import opened EditWindow
  import opened EditSpec

  function Coming(input: seq<Arrival>): bytes {
    seq(|input|, i requires 0 <= i < |input| => input[i].b)
  }

  ghost predicate GoodLine(l: Line) {
    l.pos <= |l.text| && WellFormed(l.text) && Boundary(l.text, l.pos)
  }

  ghost predicate Good(e: Edit, history: seq<bytes>) {
    GoodLine(e.line) && WellFormed(e.saved) && e.recall <= |history|
  }

  ghost predicate GoodHistory(history: seq<bytes>) {
    forall i :: 0 <= i < |history| ==> WellFormed(history[i])
  }

  /** Whenever the keyboard is between codepoints, the text is well-formed and the cursor between two. */
  ghost predicate Sound(e: Edit, input: seq<Arrival>, history: seq<bytes>)
    requires Valid(e, history)
    decreases |input|
  {
    && (WellFormed(Coming(input)) ==> GoodLine(e.line))
    && (var step := Key(e, input, history); step.Goes? ==> Sound(step.edit, step.rest, history))
  }

  /** Every row painted on the way can be scrolled. */
  ghost predicate AlwaysPaintable(e: Edit, input: seq<Arrival>, history: seq<bytes>)
    requires Valid(e, history)
    decreases |input|
  {
    && Paintable(e.line.text, e.line.pos)
    && (var step := Key(e, input, history); step.Goes? ==> AlwaysPaintable(step.edit, step.rest, history))
  }

  /** Escape sequences take only bytes that are codepoints by themselves. */
  predicate TakesWhole(input: seq<Arrival>) {
    input != [] && input[0].b == 27 ==> forall i :: 1 <= i <= Taken(input[1..]) ==> input[i].b < 0x80
  }

  /** So along the whole line, up to its end. */
  ghost predicate Clean(e: Edit, input: seq<Arrival>, history: seq<bytes>)
    requires Valid(e, history)
    decreases |input|
  {
    && TakesWhole(input)
    && (var step := Key(e, input, history); step.Goes? ==> Clean(step.edit, step.rest, history))
  }

  /* ---- every command keeps good lines good ---- */

  lemma Cut(s: bytes, pos: nat)
    requires WellFormed(s) && Boundary(s, pos)
    ensures WellFormed(s[..pos]) && WellFormed(s[pos..])
  {
    CutIffBoundary(s, pos);
  }

  lemma InsertKeepsGood(l: Line, s: bytes)
    requires GoodLine(l)
    ensures GoodLine(Insert(l, s)) <==> WellFormed(s)
  {
    hide WellFormed;
    var a, b := l.text[..l.pos], l.text[l.pos..];
    Cut(l.text, l.pos);
    var t := Insert(l, s).text;
    assert t == (a + s) + b;
    assert t[..l.pos + |s|] == a + s && t[l.pos + |s|..] == b;
    WellFormedJoins(a, s);
    if WellFormed(s) {
      WellFormedJoins(a + s, b);
      CutIffBoundary(t, l.pos + |s|);
    }
    if GoodLine(Insert(l, s)) {
      CutIffBoundary(t, l.pos + |s|);
    }
  }

  lemma DeleteKeepsGood(l: Line, from: nat, to: nat)
    requires GoodLine(l) && to <= |l.text| && Boundary(l.text, from) && Boundary(l.text, to)
    ensures GoodLine(Delete(l, from, to))
  {
    if from < to {
      Cut(l.text, from);
      Cut(l.text, to);
      WellFormedJoins(l.text[..from], l.text[to..]);
      var t := l.text[..from] + l.text[to..];
      assert t[..from] == l.text[..from] && t[from..] == l.text[to..];
      CutIffBoundary(t, from);
    }
  }

  lemma PrevIsBoundary(l: Line)
    requires GoodLine(l)
    ensures Boundary(l.text, Prev(l.text, l.pos)) && Boundary(l.text, Next(l.text, l.pos)) && Boundary(l.text, 0)
  {
    WellFormedStart(l.text);
  }

  lemma WordStartIsBoundary(l: Line)
    requires GoodLine(l)
    ensures Boundary(l.text, WordStart(l.text, l.pos))
  {
    var r := WordStart(l.text, l.pos);
    WellFormedStart(l.text);
    if r > 0 {
      Cut(l.text, l.pos);
      AsciiIsWhole(l.text, r - 1);
    }
  }

  /** After a byte that is a codepoint by itself there is a boundary. */
  lemma {:induction false} AsciiIsWhole(s: bytes, k: nat)
    requires WellFormed(s) && k < |s| && s[k] < 0x80
    ensures Boundary(s, k + 1)
  {
    var w := Width(s[0]);
    var c, t := s[..w], s[w..];
    assert forall i :: 1 <= i < w ==> Continuation(c[i]) && c[i] == s[i];
    if k == 0 {
      WellFormedStart(t);
      assert t != [] ==> t[0] == s[1];
    } else {
      assert w <= k && t[k - w] == s[k];
      AsciiIsWhole(t, k - w);
      assert k + 1 < |s| ==> t[k + 1 - w] == s[k + 1];
    }
  }

  lemma PlainKeepsGood(l: Line, b: byte)
    requires GoodLine(l) && b < 0x80
    ensures GoodLine(Plain(l, b))
  {
    hide WellFormed, Prev, Next, WordStart, Boundary, Insert, Delete;
    PrevIsBoundary(l);
    WordStartIsBoundary(l);
    PosIsBoundary(l);
    if b == 4 {
      DeleteKeepsGood(l, l.pos, Next(l.text, l.pos));
    } else if b == 127 || b == 8 {
      DeleteKeepsGood(l, Prev(l.text, l.pos), l.pos);
    } else if b == 11 {
      Cut(l.text, l.pos);
    } else if b == 21 {
      DeleteKeepsGood(l, 0, l.pos);
    } else if b == 23 {
      DeleteKeepsGood(l, WordStart(l.text, l.pos), l.pos);
    } else if b == 9 {
      TwoSpaces();
      InsertKeepsGood(l, [32, 32]);
    } else if b >= 32 {
      OneCodepoint([b]);
      InsertKeepsGood(l, [b]);
    }
  }

  lemma TwoSpaces()
    ensures WellFormed([32, 32])
  {
    OneCodepoint([32]);
    WellFormedJoins([32], [32]);
    assert [32, 32] == [32] + [32];
  }

  lemma PosIsBoundary(l: Line)
    requires GoodLine(l)
    ensures Boundary(l.text, l.pos) && forall t: bytes :: Boundary(t, |t|)
  {
  }

  lemma PerformKeepsGood(e: Edit, c: Command, history: seq<bytes>)
    requires Good(e, history) && GoodHistory(history)
    ensures Good(Perform(e, c, history), history)
  {
    hide WellFormed, Prev, Next, Boundary, Insert, Delete;
    PrevIsBoundary(e.line);
    PosIsBoundary(e.line);
    if c == DeleteRight {
      DeleteKeepsGood(e.line, e.line.pos, Next(e.line.text, e.line.pos));
    }
  }

  /* ---- whole lines ---- */

  lemma ComingTail(input: seq<Arrival>, n: nat)
    requires n <= |input|
    ensures Coming(input)[n..] == Coming(input[n..]) && Coming(input)[..n] == Coming(input[..n])
  {
  }

  /** Whole one-byte codepoints taken off the front leave whole codepoints. */
  lemma {:induction false} AsciiOff(s: bytes, n: nat)
    requires WellFormed(s) && n <= |s| && forall i :: 0 <= i < n ==> s[i] < 0x80
    ensures WellFormed(s[n..])
    decreases n
  {
    if n > 0 {
      AsciiOff(s[1..], n - 1);
      assert s[1..][n - 1..] == s[n..];
    }
  }

  /** Bytes of 0x80 and above go in as they are. */
  lemma InsertedAsIs(e: Edit, input: seq<Arrival>, history: seq<bytes>)
    requires Valid(e, history) && input != [] && input[0].b >= 0x80
    ensures Key(e, input, history) == Goes(e.(line := Insert(e.line, [input[0].b])), input[1..])
    ensures TakesWhole(input)
  {
  }

  lemma InsertTwice(l: Line, a: bytes, b: bytes)
    requires l.pos <= |l.text|
    ensures Insert(Insert(l, a), b) == Insert(l, a + b)
  {
    var once := Insert(l, a);
    assert once.text[..once.pos] == l.text[..l.pos] + a;
    assert once.text[once.pos..] == l.text[l.pos..];
  }

  lemma ContinuationTyped(e: Edit, input: seq<Arrival>, history: seq<bytes>)
    requires Valid(e, history) && input != [] && Continuation(input[0].b)
    ensures var step := e.(line := Insert(e.line, [input[0].b]));
      && Valid(step, history)
      && (Sound(e, input, history) <==> Sound(step, input[1..], history))
      && (Clean(e, input, history) <==> Clean(step, input[1..], history))
  {
    InsertedAsIs(e, input, history);
    assert Coming(input)[0] == input[0].b;
  }

  /** Continuation bytes at the front are typed without the keyboard being between codepoints. */
  lemma {:induction false} ContinuationsTyped(e: Edit, input: seq<Arrival>, n: nat, history: seq<bytes>)
    requires Valid(e, history) && n <= |input| && forall i :: 0 <= i < n ==> Continuation(input[i].b)
    ensures var e' := e.(line := Insert(e.line, Coming(input)[..n]));
      && Valid(e', history)
      && (Sound(e, input, history) <==> Sound(e', input[n..], history))
      && (Clean(e, input, history) <==> Clean(e', input[n..], history))
    decreases n
  {
    hide Sound, Clean;
    if n == 0 {
      assert Insert(e.line, []).text == e.line.text && input[0..] == input;
    } else {
      ContinuationTyped(e, input, history);
      var step := e.(line := Insert(e.line, [input[0].b]));
      ContinuationsTyped(step, input[1..], n - 1, history);
      ComingTail(input, 1);
      InsertTwice(e.line, [input[0].b], Coming(input)[1..][..n - 1]);
      assert [input[0].b] + Coming(input)[1..][..n - 1] == Coming(input)[..n];
      assert input[1..][n - 1..] == input[n..];
      hide Insert;
    }
  }

  /** A codepoint of several bytes is typed. */
  lemma LongCodepointTyped(e: Edit, input: seq<Arrival>, history: seq<bytes>) returns (e': Edit, w: nat)
    requires Good(e, history) && input != [] && WellFormed(Coming(input)) && input[0].b >= 0x80
    ensures 0 < w == Width(input[0].b) <= |input| && Good(e', history) && WellFormed(Coming(input[w..]))
    ensures e' == e.(line := Insert(e.line, Coming(input)[..w]))
    ensures Sound(e, input, history) <==> Sound(e', input[w..], history)
    ensures Clean(e, input, history) <==> Clean(e', input[w..], history)
  {
    var s := Coming(input);
    w := Width(s[0]);
    e' := e.(line := Insert(e.line, s[..w]));
    OneCodepoint(s[..w]);
    InsertKeepsGood(e.line, s[..w]);
    ComingTail(input, w);
    InsertedAsIs(e, input, history);
    var step := e.(line := Insert(e.line, [input[0].b]));
    ComingTail(input, 1);
    forall i | 0 <= i < w - 1 ensures Continuation(input[1..][i].b) {
      assert s[..w][i + 1] == input[1..][i].b;
    }
    ContinuationsTyped(step, input[1..], w - 1, history);
    InsertTwice(e.line, [input[0].b], s[1..][..w - 1]);
    assert [input[0].b] + s[1..][..w - 1] == s[..w];
    assert input[1..][w - 1..] == input[w..];
  }

  /** Only the last byte taken can be more than a codepoint by itself. */
  lemma OnlyTheLastTaken(rest: seq<Arrival>)
    requires exists i :: 0 <= i < Taken(rest) && rest[i].b >= 0x80
    ensures Taken(rest) > 0 && rest[Taken(rest) - 1].b >= 0x80
    ensures forall i :: 0 <= i < Taken(rest) - 1 ==> rest[i].b < 0x80
    ensures Meaning(rest[..Taken(rest)]) == Nothing
  {
  }

  /** An escape that takes the first byte of a longer codepoint lets the others in alone. */
  lemma {:induction false} SpoiltByEscape(e: Edit, input: seq<Arrival>, history: seq<bytes>)
    requires Good(e, history) && input != [] && WellFormed(Coming(input)) && !TakesWhole(input)
    ensures !Sound(e, input, history)
  {
    var rest := input[1..];
    var n := Taken(rest);
    assert exists i :: 0 <= i < n && rest[i].b >= 0x80 by {
      var i :| 1 <= i <= n && input[i].b >= 0x80;
      assert rest[i - 1].b >= 0x80;
    }
    OnlyTheLastTaken(rest);
    hide Taken, Meaning, Sound, WellFormed;
    var lead, after := rest[n - 1..], rest[n..];
    LeadIsTaken(input, n);
    assert Key(e, input, history) == Goes(e, after);
    OthersAreStray(e, lead, history);
    assert lead[1..] == after;
    KeySound(e, input, history);
  }

  lemma LeadIsTaken(input: seq<Arrival>, n: nat)
    requires WellFormed(Coming(input)) && 0 < n < |input|
    requires forall i :: 0 <= i < n ==> input[i].b < 0x80
    ensures WellFormed(Coming(input[1..][n - 1..]))
  {
    ComingTail(input, n);
    AsciiOff(Coming(input), n);
    assert input[1..][n - 1..] == input[n..];
  }

  lemma KeySound(e: Edit, input: seq<Arrival>, history: seq<bytes>)
    requires Valid(e, history)
    ensures var step := Key(e, input, history);
      Sound(e, input, history) && step.Goes? ==> Sound(step.edit, step.rest, history)
  {
  }

  /** The rest of a codepoint typed without its first byte. */
  lemma OthersAreStray(e: Edit, lead: seq<Arrival>, history: seq<bytes>)
    requires Good(e, history) && lead != [] && WellFormed(Coming(lead)) && lead[0].b >= 0x80
    ensures !Sound(e, lead[1..], history)
  {
    var s, after := Coming(lead), lead[1..];
    var w := Width(s[0]);
    forall i | 0 <= i < w - 1 ensures Continuation(after[i].b) {
      assert s[..w][i + 1] == after[i].b;
    }
    ContinuationsTyped(e, after, w - 1, history);
    ComingTail(lead, w);
    assert after[w - 1..] == lead[w..];
    StrayLine(e.line, Coming(after)[..w - 1]);
  }

  lemma StrayLine(l: Line, stray: bytes)
    requires GoodLine(l) && stray != [] && Continuation(stray[0])
    ensures !GoodLine(Insert(l, stray))
  {
    InsertKeepsGood(l, stray);
  }

  /** Editing is sound from a good line on if and only if no escape sequence takes part of a codepoint. */
  lemma {:induction false} SoundIffClean(e: Edit, input: seq<Arrival>, history: seq<bytes>)
    requires Good(e, history) && GoodHistory(history) && WellFormed(Coming(input))
    ensures Sound(e, input, history) <==> Clean(e, input, history)
    decreases |input|
  {
    if input == [] {
    } else if input[0].b >= 0x80 {
      var e', w := LongCodepointTyped(e, input, history);
      hide Sound, Clean;
      SoundIffClean(e', input[w..], history);
    } else if !TakesWhole(input) {
      SpoiltByEscape(e, input, history);
    } else {
      OneByteKey(e, input, history);
      var step := Key(e, input, history);
      if step.Goes? {
        SoundIffClean(step.edit, step.rest, history);
      }
    }
  }

  /** A key that is whole keeps the line good and the keyboard between codepoints. */
  lemma OneByteKey(e: Edit, input: seq<Arrival>, history: seq<bytes>)
    requires Good(e, history) && GoodHistory(history) && WellFormed(Coming(input))
    requires input != [] && input[0].b < 0x80 && TakesWhole(input)
    ensures var step := Key(e, input, history);
      step.Goes? ==> Good(step.edit, history) && WellFormed(Coming(step.rest))
  {
    var step := Key(e, input, history);
    if step.Goes? {
      var n := if input[0].b == 27 then 1 + Taken(input[1..]) else 1;
      ComingTail(input, n);
      assert forall i :: 0 <= i < n ==> Coming(input)[i] == input[i].b;
      AsciiOff(Coming(input), n);
      if input[0].b == 27 {
        assert step.rest == input[n..];
        PerformKeepsGood(e, Meaning(input[1..][..Taken(input[1..])]), history);
      } else {
        PlainKeepsGood(e.line, input[0].b);
      }
    }
  }

  /* ---- the row, and the line handed back ---- */

  lemma GoodIsPaintable(l: Line)
    requires GoodLine(l)
    ensures Paintable(l.text, l.pos)
  {
    WellFormedStart(l.text);
  }

  /** A codepoint half typed can still be painted. */
  lemma InsertPaintable(l: Line, b: byte)
    requires Paintable(l.text, l.pos) && (l.pos > 0 || !Continuation(b))
    ensures Paintable(Insert(l, [b]).text, l.pos + 1)
  {
    var t := Insert(l, [b]).text;
    assert t[0] == if l.pos > 0 then l.text[0] else b;
    assert l.pos < |l.text| ==> t[l.pos + 1] == l.text[l.pos];
  }

  lemma {:induction false} ContinuationsPaintable(e: Edit, input: seq<Arrival>, n: nat, history: seq<bytes>)
    requires Valid(e, history) && n <= |input| && forall i :: 0 <= i < n ==> Continuation(input[i].b)
    requires e.line.pos > 0 && Paintable(e.line.text, e.line.pos)
    ensures var e' := e.(line := Insert(e.line, Coming(input)[..n]));
      && Valid(e', history)
      && (AlwaysPaintable(e', input[n..], history) ==> AlwaysPaintable(e, input, history))
    decreases n
  {
    if n == 0 {
      assert Insert(e.line, []).text == e.line.text && input[0..] == input;
    } else {
      InsertedAsIs(e, input, history);
      InsertPaintable(e.line, input[0].b);
      var step := e.(line := Insert(e.line, [input[0].b]));
      ContinuationsPaintable(step, input[1..], n - 1, history);
      ComingTail(input, 1);
      InsertTwice(e.line, [input[0].b], Coming(input)[1..][..n - 1]);
      assert [input[0].b] + Coming(input)[1..][..n - 1] == Coming(input)[..n];
      assert input[1..][n - 1..] == input[n..];
      hide Insert, Paintable;
    }
  }

  lemma LongCodepointPaintable(e: Edit, input: seq<Arrival>, e': Edit, w: nat, history: seq<bytes>)
    requires Good(e, history) && input != [] && WellFormed(Coming(input)) && input[0].b >= 0x80
    requires w == Width(input[0].b) <= |input| && e' == e.(line := Insert(e.line, Coming(input)[..w]))
    requires Valid(e', history) && AlwaysPaintable(e', input[w..], history)
    ensures AlwaysPaintable(e, input, history)
  {
    var s := Coming(input);
    GoodIsPaintable(e.line);
    assert s[0] == input[0].b;
    forall i | 0 <= i < w - 1 ensures Continuation(input[1..][i].b) {
      assert s[..w][i + 1] == input[1..][i].b;
    }
    hide WellFormed;
    InsertedAsIs(e, input, history);
    InsertPaintable(e.line, input[0].b);
    var step := e.(line := Insert(e.line, [input[0].b]));
    ComingTail(input, 1);
    ContinuationsPaintable(step, input[1..], w - 1, history);
    InsertTwice(e.line, [input[0].b], s[1..][..w - 1]);
    assert [input[0].b] + s[1..][..w - 1] == s[..w];
    assert input[1..][w - 1..] == input[w..];
  }

  /** On a clean line the scroll is right at every repaint, also in the middle of a codepoint. */
  lemma {:induction false} CleanIsAlwaysPaintable(e: Edit, input: seq<Arrival>, history: seq<bytes>)
    requires Good(e, history) && GoodHistory(history) && WellFormed(Coming(input)) && Clean(e, input, history)
    ensures AlwaysPaintable(e, input, history)
    decreases |input|
  {
    GoodIsPaintable(e.line);
    if input == [] {
    } else if input[0].b >= 0x80 {
      var e', w := LongCodepointTyped(e, input, history);
      hide Sound, Clean, AlwaysPaintable, WellFormed;
      CleanIsAlwaysPaintable(e', input[w..], history);
      LongCodepointPaintable(e, input, e', w, history);
    } else {
      OneByteKey(e, input, history);
      var step := Key(e, input, history);
      if step.Goes? {
        CleanIsAlwaysPaintable(step.edit, step.rest, history);
      }
    }
  }

  lemma {:induction false} TypedOn(e: Edit, input: seq<Arrival>, n: nat, history: seq<bytes>)
    requires Valid(e, history) && n <= |input| && forall i :: 0 <= i < n ==> input[i].b >= 0x80
    ensures var e' := e.(line := Insert(e.line, Coming(input)[..n]));
      Valid(e', history) && Typed(e, input, history) == Typed(e', input[n..], history)
    decreases n
  {
    if n == 0 {
      assert Insert(e.line, []).text == e.line.text && input[0..] == input;
    } else {
      InsertedAsIs(e, input, history);
      var step := e.(line := Insert(e.line, [input[0].b]));
      TypedOn(step, input[1..], n - 1, history);
      ComingTail(input, 1);
      InsertTwice(e.line, [input[0].b], Coming(input)[1..][..n - 1]);
      assert [input[0].b] + Coming(input)[1..][..n - 1] == Coming(input)[..n];
      assert input[1..][n - 1..] == input[n..];
    }
  }

  lemma LongBytes(input: seq<Arrival>)
    requires input != [] && WellFormed(Coming(input)) && input[0].b >= 0x80
    ensures Width(input[0].b) <= |input| && forall i :: 0 <= i < Width(input[0].b) ==> input[i].b >= 0x80
  {
    var s, w := Coming(input), Width(input[0].b);
    assert s[0] == input[0].b;
    assert forall i :: 1 <= i < w ==> Continuation(s[..w][i]) && s[..w][i] == input[i].b;
  }

  lemma EndsWell(e: Edit, input: seq<Arrival>, history: seq<bytes>)
    requires Good(e, history)
    ensures var step := Key(e, input, history);
      && Valid(e, history)
      && (step.Ends? ==> step == Typed(e, input, history))
      && (step.Goes? ==> Typed(step.edit, step.rest, history) == Typed(e, input, history))
      && (step.Ends? && step.outcome.Submitted? ==> WellFormed(step.outcome.text))
  {
    assert WellFormed([]);
  }

  /** The line handed back from a clean run is well-formed. */
  lemma {:induction false} SubmittedIsWellFormed(e: Edit, input: seq<Arrival>, history: seq<bytes>)
    requires Good(e, history) && GoodHistory(history) && WellFormed(Coming(input)) && Clean(e, input, history)
    ensures var end := Typed(e, input, history).outcome; end.Submitted? ==> WellFormed(end.text)
    decreases |input|
  {
    hide WellFormed, Typed;
    EndsWell(e, input, history);
    if input == [] {
    } else if input[0].b >= 0x80 {
      var e', w := LongCodepointTyped(e, input, history);
      hide Clean, Key;
      LongBytes(input);
      TypedOn(e, input, w, history);
      SubmittedIsWellFormed(e', input[w..], history);
    } else {
      OneByteKey(e, input, history);
      var step := Key(e, input, history);
      hide Key;
      if step.Goes? {
        SubmittedIsWellFormed(step.edit, step.rest, history);
      }
    }
  }

  /** Escape and then a letter of two bytes, typed in haste: its first byte is taken and the other one stays. */
  lemma EscapeSplitsALetter()
    ensures var input := [Arrival(27, true), Arrival(0xC3, true), Arrival(0xA9, true), Arrival(13, true)];
      && WellFormed(Coming(input)) && !TakesWhole(input)
      && Typed(Fresh([]), input, []) == Ends(Submitted([0xA9]), [])
      && !WellFormed([0xA9])
  {
    var input := [Arrival(27, true), Arrival(0xC3, true), Arrival(0xA9, true), Arrival(13, true)];
    assert Coming(input) == [27] + ([0xC3, 0xA9] + [13]);
    OneCodepoint([27]);
    OneCodepoint([0xC3, 0xA9]);
    OneCodepoint([13]);
    WellFormedJoins([0xC3, 0xA9], [13]);
    WellFormedJoins([27], [0xC3, 0xA9] + [13]);
    var e := Fresh([]);
    assert input[1..][0] == input[1] && Taken(input[1..]) == 1;
    var rest := [Arrival(0xA9, true), Arrival(13, true)];
    assert input[1..][1..] == rest;
    assert Key(e, input, []) == Goes(e, rest);
    var l := Insert(e.line, [0xA9]);
    assert l == Line([0xA9], 1);
    assert rest[1..] == [Arrival(13, true)] && [Arrival(13, true)][1..] == [];
    InsertedAsIs(e, rest, []);
    assert Key(e.(line := l), rest[1..], []) == Ends(Submitted([0xA9]), []);
    assert Typed(e, rest, []) == Typed(e.(line := l), rest[1..], []);
  }
}
