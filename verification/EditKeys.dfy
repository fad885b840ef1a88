/**
  What the keys of the line editor mean (`src/lineedit.c`), told on a sheet of letters: the codepoints before the
  cursor, those after it, and the history as lists of codepoints.  The editor, which works on bytes, does on every
  key what its action does on the sheet.
*/
module EditKeys {
  import opened Bytes
  import opened Utf8
  import opened EditSpec
  import opened EditRuns

  type Letters = seq<bytes>

  /** `typed` is the line that was being typed when the history was entered. */
  datatype Sheet = Sheet(before: Letters, after: Letters, recall: nat, typed: Letters)

  datatype Action =
    | Type(letter: bytes)
    | Indent
    | Erase
    | EraseAhead
    | GoLeft
    | GoRight
    | GoHome
    | GoEnd
    | CutAhead
    | CutBehind
    | CutWord
    | Older
    | Newer
    | Nothing

  // ----- the sheet -----

  function Flat(cs: Letters): bytes { if cs == [] then [] else cs[0] + Flat(cs[1..]) }

  function Front<T>(s: seq<T>): seq<T> { if s == [] then [] else s[..|s| - 1] }

  function Rest<T>(s: seq<T>): seq<T> { if s == [] then [] else s[1..] }

  function LastOf<T>(s: seq<T>): seq<T> { if s == [] then [] else [s[|s| - 1]] }

  function FirstOf<T>(s: seq<T>): seq<T> { if s == [] then [] else [s[0]] }

  predicate IsSpace(c: bytes) { |c| == 1 && Space(c[0]) }

  /** Without the letters at the end that are spaces, or that are not. */
  function Stripped(cs: Letters, spaces: bool): Letters
    decreases |cs|
  {
    if cs != [] && IsSpace(cs[|cs| - 1]) == spaces then Stripped(cs[..|cs| - 1], spaces) else cs
  }

  function Recalled(z: Sheet, older: bool, history: seq<Letters>): Sheet {
    if history == [] then z
    else
      var typed := if z.recall == |history| then z.before + z.after else z.typed;
      if older then
        if z.recall == 0 || z.recall > |history| then z.(typed := typed)
        else Sheet(history[z.recall - 1], [], z.recall - 1, typed)
      else if z.recall >= |history| then z.(typed := typed)
      else if z.recall + 1 == |history| then Sheet(typed, [], z.recall + 1, typed)
      else Sheet(history[z.recall + 1], [], z.recall + 1, typed)
  }

  /** What an action does to the sheet. */
  function Act(z: Sheet, a: Action, history: seq<Letters>): Sheet {
    match a
    case Type(c) => z.(before := z.before + [c])
    case Indent => z.(before := z.before + [[32], [32]])
    case Erase => z.(before := Front(z.before))
    case EraseAhead => z.(after := Rest(z.after))
    case GoLeft => z.(before := Front(z.before), after := LastOf(z.before) + z.after)
    case GoRight => z.(before := z.before + FirstOf(z.after), after := Rest(z.after))
    case GoHome => z.(before := [], after := z.before + z.after)
    case GoEnd => z.(before := z.before + z.after, after := [])
    case CutAhead => z.(after := [])
    case CutBehind => z.(before := [])
    case CutWord => z.(before := Stripped(Stripped(z.before, true), false))
    case Older => Recalled(z, true, history)
    case Newer => Recalled(z, false, history)
    case Nothing => z
  }

  /** Erasing takes back what was typed, and going left and then erasing ahead erases. */
  lemma ActionsUndo(z: Sheet, c: bytes, history: seq<Letters>)
    ensures Act(Act(z, Type(c), history), Erase, history) == z
    ensures z.before != [] ==>
      && Act(Act(z, GoLeft, history), GoRight, history) == z
      && Act(Act(z, GoLeft, history), EraseAhead, history) == Act(z, Erase, history)
  {
    if z.before != [] {
      assert Front(z.before) + LastOf(z.before) == z.before;
      var left := LastOf(z.before) + z.after;
      assert FirstOf(left) == LastOf(z.before) && Rest(left) == z.after;
    }
  }

  // ----- what a line shows -----

  ghost predicate AreLetters(cs: Letters) { forall i :: 0 <= i < |cs| ==> Codepoint(cs[i]) }

  ghost predicate ShowsLine(l: Line, before: Letters, after: Letters) {
    AreLetters(before) && AreLetters(after) && l.text == Flat(before) + Flat(after) && l.pos == |Flat(before)|
  }

  /** The editor is where the sheet is. */
  ghost predicate Shows(e: Edit, z: Sheet) {
    && ShowsLine(e.line, z.before, z.after) && AreLetters(z.typed)
    && e.recall == z.recall && e.saved == Flat(z.typed)
  }

  ghost predicate SameHistory(history: seq<bytes>, letters: seq<Letters>) {
    |history| == |letters| && forall i :: 0 <= i < |letters| ==> AreLetters(letters[i]) && history[i] == Flat(letters[i])
  }

  lemma {:induction false} FlatConcat(a: Letters, b: Letters)
    ensures Flat(a + b) == Flat(a) + Flat(b)
    decreases |a|
  {
    if a == [] {
      assert a + b == b;
    } else {
      assert (a + b)[1..] == a[1..] + b;
      FlatConcat(a[1..], b);
    }
  }

  lemma FlatOne(c: bytes)
    ensures Flat([c]) == c
  {
    assert Flat([c]) == c + Flat([]);
  }

  lemma LettersConcat(a: Letters, b: Letters)
    ensures AreLetters(a + b) <==> AreLetters(a) && AreLetters(b)
  {
    if AreLetters(a + b) {
      forall i | 0 <= i < |a| ensures Codepoint(a[i]) {
        assert (a + b)[i] == a[i];
      }
      forall i | 0 <= i < |b| ensures Codepoint(b[i]) {
        assert (a + b)[|a| + i] == b[i];
      }
    }
  }

  /** Letters at the ends of what is before and after the cursor. */
  lemma LastLetter(cs: Letters)
    requires AreLetters(cs) && cs != []
    ensures var c := cs[|cs| - 1]; Codepoint(c) && AreLetters(Front(cs)) && Flat(cs) == Flat(Front(cs)) + c
  {
    hide Codepoint, Flat, AreLetters;
    var c := cs[|cs| - 1];
    LetterAt(cs, |cs| - 1);
    assert cs == Front(cs) + [c];
    LettersConcat(Front(cs), [c]);
    FlatConcat(Front(cs), [c]);
    FlatOne(c);
  }

  lemma LetterAt(cs: Letters, i: nat)
    requires AreLetters(cs) && i < |cs|
    ensures Codepoint(cs[i])
  {
  }


  lemma FirstLetter(cs: Letters)
    requires AreLetters(cs) && cs != []
    ensures Codepoint(cs[0]) && AreLetters(Rest(cs)) && Flat(cs) == cs[0] + Flat(Rest(cs))
  {
    LetterAt(cs, 0);
    assert cs == [cs[0]] + Rest(cs);
    hide Codepoint, AreLetters;
    LettersConcat([cs[0]], Rest(cs));
  }

  lemma LettersStart(cs: Letters)
    requires AreLetters(cs) && Flat(cs) != []
    ensures !Continuation(Flat(cs)[0])
  {
    if cs != [] {
      FirstLetter(cs);
    }
  }

  /** Back from the cursor is back over one letter. */
  lemma PrevIsLetter(s: bytes, a: bytes, c: bytes, b: bytes)
    requires s == a + c + b && Codepoint(c)
    ensures Prev(s, |a + c|) == |a|
  {
    assert s[|a|] == c[0] && !Continuation(c[0]);
    assert forall k :: 1 <= k < |c| ==> s[|a| + k] == c[k] && Continuation(c[k]);
  }

  lemma NextIsLetter(s: bytes, a: bytes, c: bytes, b: bytes)
    requires s == a + c + b && Codepoint(c) && (b != [] ==> !Continuation(b[0]))
    ensures Next(s, |a|) == |a + c|
  {
    assert forall k :: 1 <= k < |c| ==> s[|a| + k] == c[k] && Continuation(c[k]);
    assert b != [] ==> s[|a + c|] == b[0];
  }

  // ----- the one-byte keys -----

  /** The action of a key of one byte, those that end a line and the Escape aside. */
  function ActionOf(b: byte): Action {
    if b == 127 || b == 8 then Erase
    else if b == 4 then EraseAhead
    else if b == 2 then GoLeft
    else if b == 6 then GoRight
    else if b == 1 then GoHome
    else if b == 5 then GoEnd
    else if b == 11 then CutAhead
    else if b == 21 then CutBehind
    else if b == 23 then CutWord
    else if b == 9 then Indent
    else if 32 <= b < 128 then Type([b])
    else Action.Nothing
  }

  lemma Taking(l: Line, a: bytes, c: bytes, b: bytes)
    requires l.text == a + c + b && l.pos == |a + c|
    ensures Delete(l, |a|, l.pos) == Line(a + b, |a|)
  {
    assert l.text[..|a|] == a && l.text[l.pos..] == b;
    assert c == [] ==> a + c == a;
  }

  lemma EraseActs(l: Line, before: Letters, after: Letters)
    requires ShowsLine(l, before, after)
    ensures l.pos <= |l.text|
    ensures before == [] ==> l.pos == 0 && Prev(l.text, l.pos) == 0
    ensures before != [] ==> l.pos > 0 && ShowsLine(Delete(l, Prev(l.text, l.pos), l.pos), Front(before), after)
    ensures before != [] ==> ShowsLine(l.(pos := Prev(l.text, l.pos)), Front(before), LastOf(before) + after)
  {
    if before != [] {
      LastLetter(before);
      var a, c := Flat(Front(before)), before[|before| - 1];
      PrevIsLetter(l.text, a, c, Flat(after));
      hide Codepoint, Prev;
      Taking(l, a, c, Flat(after));
      hide Delete;
      LettersConcat([c], after);
      Moved(l.text, a, c, after);
    }
  }

  lemma Moved(s: bytes, a: bytes, c: bytes, after: Letters)
    requires s == a + c + Flat(after)
    ensures s == a + Flat([c] + after)
  {
    assert ([c] + after)[1..] == after;
    assert a + c + Flat(after) == a + (c + Flat(after));
  }

  lemma AheadActs(l: Line, before: Letters, after: Letters)
    requires ShowsLine(l, before, after)
    ensures after == [] ==> l.pos == |l.text|
    ensures ShowsLine(Delete(l, l.pos, Next(l.text, l.pos)), before, Rest(after))
    ensures ShowsLine(l.(pos := Next(l.text, l.pos)), before + FirstOf(after), Rest(after))
  {
    if after == [] {
      assert before + FirstOf(after) == before;
    } else {
      FirstLetter(after);
      var a, c, b := Flat(before), after[0], Flat(Rest(after));
      if b != [] {
        LettersStart(Rest(after));
      }
      assert l.text == a + c + b;
      NextIsLetter(l.text, a, c, b);
      assert l.text[..l.pos] == a && l.text[l.pos + |c|..] == b;
      FlatConcat(before, [c]);
      FlatOne(c);
      LettersConcat(before, [c]);
      hide Codepoint, Next, Flat;
      assert FirstOf(after) == [c];
    }
  }

  lemma EndsAct(l: Line, before: Letters, after: Letters)
    requires ShowsLine(l, before, after)
    ensures l.pos <= |l.text|
    ensures ShowsLine(l.(pos := 0), [], before + after)
    ensures ShowsLine(AtEnd(l.text), before + after, [])
    ensures ShowsLine(AtEnd(l.text[..l.pos]), before, [])
    ensures ShowsLine(Delete(l, 0, l.pos), [], after)
  {
    FlatConcat(before, after);
    LettersConcat(before, after);
    var s := Flat(before) + Flat(after);
    assert [] + s == s && s + [] == s;
    assert l.text[..l.pos] == Flat(before) && l.text[l.pos..] == Flat(after);
    assert Flat(before) + [] == Flat(before) && [] + Flat(after) == Flat(after);
  }

  lemma InsertActs(l: Line, before: Letters, after: Letters, cs: Letters)
    requires ShowsLine(l, before, after) && AreLetters(cs)
    ensures l.pos <= |l.text| && ShowsLine(Insert(l, Flat(cs)), before + cs, after)
  {
    FlatConcat(before, cs);
    LettersConcat(before, cs);
    assert l.text[..l.pos] == Flat(before) && l.text[l.pos..] == Flat(after);
  }

  lemma SpaceOrNot(c: bytes)
    requires Codepoint(c)
    ensures forall k :: 0 <= k < |c| ==> Space(c[k]) == IsSpace(c)
  {
  }

  lemma {:induction false} BackOverRun(s: bytes, from: nat, pos: nat, space: bool)
    requires from <= pos <= |s| && forall k :: from <= k < pos ==> Space(s[k]) == space
    ensures BackOver(s, pos, space) == BackOver(s, from, space)
    decreases pos
  {
    if from < pos {
      BackOverRun(s, from, pos - 1, space);
    }
  }

  /** Going back from the end of a letter passes it, or stays. */
  lemma BackOneLetter(a: bytes, c: bytes, more: bytes, space: bool)
    requires Codepoint(c)
    ensures IsSpace(c) == space ==> BackOver(a + c + more, |a + c|, space) == BackOver(a + (c + more), |a|, space)
    ensures IsSpace(c) != space ==> BackOver(a + c + more, |a + c|, space) == |a + c|
  {
    var s := a + c + more;
    SpaceOrNot(c);
    assert |c| > 0;
    hide Codepoint;
    assert forall k :: 0 <= k < |c| ==> s[|a| + k] == c[k];
    if IsSpace(c) == space {
      assert s == a + (c + more);
      BackOverRun(s, |a|, |a + c|, space);
    } else {
      assert s[|a + c| - 1] == c[|c| - 1];
    }
  }

  lemma {:induction false} BackOverLetters(cs: Letters, more: bytes, space: bool)
    requires AreLetters(cs)
    ensures AreLetters(Stripped(cs, space)) && Stripped(cs, space) <= cs
    ensures BackOver(Flat(cs) + more, |Flat(cs)|, space) == |Flat(Stripped(cs, space))|
    decreases |cs|
  {
    hide Codepoint, AreLetters, BackOver, IsSpace;
    if cs != [] {
      LastLetter(cs);
      hide Flat;
      var c, a := cs[|cs| - 1], Flat(Front(cs));
      BackOneLetter(a, c, more, space);
      if IsSpace(c) == space {
        BackOverLetters(Front(cs), c + more, space);
      }
    } else {
      NothingBack(more, space);
    }
  }

  lemma NothingBack(s: bytes, space: bool)
    ensures BackOver(s, 0, space) == 0 && [] + s == s
  {
  }

  lemma FlatPrefix(a: Letters, b: Letters)
    requires a <= b
    ensures Flat(b) == Flat(a) + Flat(b[|a|..])
  {
    assert b == a + b[|a|..];
    FlatConcat(a, b[|a|..]);
  }

  lemma InFour<T>(a: seq<T>, b: seq<T>, c: seq<T>, d: seq<T>)
    ensures (a + b) + c + d == a + (b + c) + d && (a + b) + (c + d) == a + (b + c) + d
    ensures (a + b) + c == a + (b + c)
  {
  }

  lemma WordActs(l: Line, before: Letters, after: Letters)
    requires ShowsLine(l, before, after)
    ensures l.pos <= |l.text|
    ensures ShowsLine(Delete(l, WordStart(l.text, l.pos), l.pos), Stripped(Stripped(before, true), false), after)
  {
    hide Codepoint, Delete;
    var some, kept := Stripped(before, true), Stripped(Stripped(before, true), false);
    BackOverLetters(before, Flat(after), true);
    FlatPrefix(some, before);
    var spaces := Flat(before[|some|..]);
    BackOverLetters(some, spaces + Flat(after), false);
    FlatPrefix(kept, some);
    var word := Flat(some[|kept|..]);
    InFour(Flat(kept), word, spaces, Flat(after));
    assert WordStart(l.text, l.pos) == |Flat(kept)|;
    hide Flat, Stripped, BackOver, WordStart;
    Taking(l, Flat(kept), word + spaces, Flat(after));
  }

  /** Every key of one byte does on the line what its action does on the sheet. */
  lemma PlainActs(e: Edit, z: Sheet, b: byte, history: seq<Letters>)
    requires Shows(e, z) && b < 0x80 && b != 3 && b != 10 && b != 13 && b != 27
    ensures e.line.pos <= |e.line.text| && Shows(e.(line := Plain(e.line, b)), Act(z, ActionOf(b), history))
  {
    var l, before, after := e.line, z.before, z.after;
    hide Codepoint, Flat, WordStart, Prev, Next, Stripped, Insert, Delete, ShowsLine, AtEnd;
    if b == 9 || 32 <= b < 127 {
      var cs := if b == 9 then [[32], [32]] else [[b]];
      OneByteLetters(cs);
      assert Flat(cs) == if b == 9 then [32, 32] else [b];
      InsertActs(l, before, after, cs);
    } else if b == 4 || b == 6 {
      EndsAct(l, before, after);
      AheadActs(l, before, after);
    } else {
      EraseActs(l, before, after);
      EndsAct(l, before, after);
      WordActs(l, before, after);
      assert LastOf<bytes>([]) + after == after;
    }
  }

  lemma OneByteLetters(cs: Letters)
    requires forall i :: 0 <= i < |cs| ==> |cs[i]| == 1 && cs[i][0] < 0x80
    requires |cs| <= 2
    ensures AreLetters(cs) && Flat(cs) == seq(|cs|, i requires 0 <= i < |cs| => cs[i][0])
  {
    if |cs| == 2 {
      assert Flat(cs) == cs[0] + Flat(cs[1..]) && Flat(cs[1..]) == cs[1] + Flat([]);
    } else if |cs| == 1 {
      assert Flat(cs) == cs[0] + Flat([]);
    }
  }

  // ----- keys of several bytes -----

  /** Escape, `[` or `O`, and what names the key. */
  predicate Escape(k: seq<byte>, name: seq<byte>) {
    |k| == 2 + |name| && k[0] == 27 && (k[1] == 91 || k[1] == 79) && k[2..] == name
  }

  /** The bytes that mean an action: control keys, what arrow and editing keys send, and the letters. */
  predicate Spells(k: seq<byte>, a: Action) {
    match a
    case Type(c) => k == c && Codepoint(c) && c[0] >= 32 && c[0] != 127
    case Indent => k == [9]
    case Erase => k == [127] || k == [8]
    case EraseAhead => k == [4] || Escape(k, [51, 126])
    case GoLeft => k == [2] || Escape(k, [68])
    case GoRight => k == [6] || Escape(k, [67])
    case GoHome => k == [1] || Escape(k, [72]) || Escape(k, [49, 126]) || Escape(k, [55, 126])
    case GoEnd => k == [5] || Escape(k, [70]) || Escape(k, [52, 126]) || Escape(k, [56, 126])
    case CutAhead => k == [11]
    case CutBehind => k == [21]
    case CutWord => k == [23]
    case Older => Escape(k, [65])
    case Newer => Escape(k, [66])
    case Nothing => k == [12]
  }

  /** A key pressed: the bytes of an escape sequence arrive soon after each other. */
  predicate Pressed(keys: seq<Arrival>, a: Action) {
    && Spells(Coming(keys), a)
    && (keys != [] && keys[0].b == 27 ==> forall i :: 1 <= i < |keys| ==> keys[i].soon)
  }

  function CommandOf(a: Action): Command {
    match a
    case EraseAhead => DeleteRight
    case GoLeft => Left
    case GoRight => Right
    case GoHome => Home
    case GoEnd => End
    case Older => Up
    case Newer => Down
    case _ => Command.Nothing
  }

  /** The bytes taken after an Escape are those up to a letter, or two when the first is a digit. */
  lemma TakenWhole(keys: seq<Arrival>, rest: seq<Arrival>)
    requires 3 <= |keys| <= 4 && (keys[1].b == 91 || keys[1].b == 79)
    requires (|keys| == 4 <==> Digit(keys[2].b)) && forall i :: 1 <= i < |keys| ==> keys[i].soon
    ensures var more := (keys + rest)[1..];
      var n := Taken(more);
      more[..n] == keys[1..] && more[n..] == rest
  {
    var more := (keys + rest)[1..];
    assert more == keys[1..] + rest;
    assert more[0] == keys[1] && more[1..][0] == keys[2];
    if |keys| == 4 {
      assert more[2..][0] == keys[3];
    }
    assert Taken(more) == |keys| - 1;
  }

  /** The bytes of a sequence name its command. */
  lemma NamesCommand(k: seq<byte>, a: Action)
    requires Spells(k, a) && k != [] && k[0] == 27
    ensures 3 <= |k| <= 4 && (k[1] == 91 || k[1] == 79) && (|k| == 4 <==> Digit(k[2])) && CommandOf(a) != Command.Nothing
    ensures forall taken: seq<Arrival> :: Coming(taken) == k[1..] ==> Meaning(taken) == CommandOf(a)
  {
    hide Codepoint;
    var name := k[2..];
    assert |k| > 2 ==> k[2] == name[0];
    assert |k| > 3 ==> k[3] == name[1];
    forall taken: seq<Arrival> | Coming(taken) == k[1..] ensures Meaning(taken) == CommandOf(a) {
      assert |Coming(taken)| == |taken| == |k| - 1;
      assert forall i :: 0 <= i < |taken| ==> taken[i].b == k[1..][i] == k[i + 1];
    }
  }

  /** An escape sequence is read to its end, and as the command it names. */
  lemma EscapeIsRead(keys: seq<Arrival>, a: Action, rest: seq<Arrival>)
    requires Pressed(keys, a) && keys != [] && keys[0].b == 27
    ensures CommandOf(a) != Command.Nothing
    ensures var more := (keys + rest)[1..];
      var n := Taken(more);
      Meaning(more[..n]) == CommandOf(a) && more[n..] == rest
  {
    var k := Coming(keys);
    hide Codepoint, Spells, Meaning, Taken, CommandOf;
    assert |k| == |keys| && forall i :: 0 <= i < |keys| ==> k[i] == keys[i].b;
    NamesCommand(k, a);
    TakenWhole(keys, rest);
    ComingTail(keys, 1);
  }

  lemma RecallActs(e: Edit, z: Sheet, up: bool, history: seq<bytes>, letters: seq<Letters>)
    requires Shows(e, z) && EditSpec.Valid(e, history) && SameHistory(history, letters)
    ensures Shows(RecallStep(e, up, history), Recalled(z, up, letters))
  {
    hide Codepoint, Flat;
    FlatConcat(z.before, z.after);
    LettersConcat(z.before, z.after);
    NothingAfter();
  }

  lemma NothingAfter()
    ensures Flat([]) == [] && forall s: bytes :: s + [] == s
  {
  }

  lemma CommandActs(e: Edit, z: Sheet, a: Action, history: seq<bytes>, letters: seq<Letters>)
    requires Shows(e, z) && EditSpec.Valid(e, history) && SameHistory(history, letters) && CommandOf(a) != Command.Nothing
    ensures Shows(Perform(e, CommandOf(a), history), Act(z, a, letters))
  {
    hide Codepoint, Flat, Prev, Next, Delete, ShowsLine, AtEnd, RecallStep, Recalled;
    match a
    case EraseAhead => AheadActs(e.line, z.before, z.after);
    case GoRight => AheadActs(e.line, z.before, z.after);
    case GoLeft =>
      EraseActs(e.line, z.before, z.after);
      assert LastOf<bytes>([]) + z.after == z.after;
    case GoHome => EndsAct(e.line, z.before, z.after);
    case GoEnd => EndsAct(e.line, z.before, z.after);
    case Older => RecallActs(e, z, true, history, letters);
    case Newer => RecallActs(e, z, false, history, letters);
  }

  /** A press of Ctrl-D on an empty line is no key of the line: it ends the input. */
  predicate EndsInput(keys: seq<Arrival>, z: Sheet) { Coming(keys) == [4] && z.before == [] && z.after == [] }

  lemma OneByte(keys: seq<Arrival>, rest: seq<Arrival>, b: byte)
    requires Coming(keys) == [b]
    ensures |keys| == 1 && (keys + rest)[0].b == b && (keys + rest)[1..] == rest
  {
    assert |Coming(keys)| == |keys| && Coming(keys)[0] == keys[0].b;
  }

  lemma EmptyLine(l: Line, before: Letters, after: Letters)
    requires ShowsLine(l, before, after)
    ensures l.text == [] <==> before == [] && after == []
  {
    if before != [] {
      FirstLetter(before);
    }
    if after != [] {
      FirstLetter(after);
    }
  }

  /** A key of one byte. */
  lemma OneByteActs(e: Edit, z: Sheet, keys: seq<Arrival>, b: byte, rest: seq<Arrival>, history: seq<bytes>,
                    letters: seq<Letters>) returns (e': Edit)
    requires Shows(e, z) && EditSpec.Valid(e, history) && Coming(keys) == [b] && !EndsInput(keys, z)
    requires b < 0x80 && b != 3 && b != 10 && b != 13 && b != 27
    ensures EditSpec.Valid(e', history) && Shows(e', Act(z, ActionOf(b), letters))
    ensures Typed(e, keys + rest, history) == Typed(e', rest, history)
  {
    OneByte(keys, rest, b);
    EmptyLine(e.line, z.before, z.after);
    PlainActs(e, z, b, letters);
    hide Shows, Act, ActionOf, Plain;
    e' := e.(line := Plain(e.line, b));
    assert Key(e, keys + rest, history) == Goes(e', rest);
  }

  /** A letter of several bytes, which go in one by one. */
  lemma LetterActs(e: Edit, z: Sheet, keys: seq<Arrival>, c: bytes, rest: seq<Arrival>, history: seq<bytes>,
                   letters: seq<Letters>) returns (e': Edit)
    requires Shows(e, z) && EditSpec.Valid(e, history) && Coming(keys) == c && Codepoint(c) && c[0] >= 0x80
    ensures EditSpec.Valid(e', history) && Shows(e', Act(z, Type(c), letters))
    ensures Typed(e, keys + rest, history) == Typed(e', rest, history)
  {
    var input := keys + rest;
    assert |keys| == |c| && forall i :: 0 <= i < |keys| ==> input[i] == keys[i] && keys[i].b == c[i];
    assert Coming(input)[..|keys|] == c && input[|keys|..] == rest;
    TypedOn(e, input, |keys|, history);
    FlatOne(c);
    InsertActs(e.line, z.before, z.after, [c]);
    hide Typed, Codepoint, Flat, Insert, ShowsLine;
    e' := e.(line := Insert(e.line, c));
  }

  lemma EscapeActs(e: Edit, z: Sheet, keys: seq<Arrival>, a: Action, rest: seq<Arrival>, history: seq<bytes>,
                   letters: seq<Letters>) returns (e': Edit)
    requires Shows(e, z) && EditSpec.Valid(e, history) && SameHistory(history, letters)
    requires Pressed(keys, a) && keys != [] && keys[0].b == 27
    ensures EditSpec.Valid(e', history) && Shows(e', Act(z, a, letters))
    ensures Typed(e, keys + rest, history) == Typed(e', rest, history)
  {
    EscapeIsRead(keys, a, rest);
    CommandActs(e, z, a, history, letters);
    hide Shows, Act, Pressed, Perform, Meaning, Taken, CommandOf;
    e' := Perform(e, CommandOf(a), history);
    assert (keys + rest)[0] == keys[0];
    assert Key(e, keys + rest, history) == Goes(e', rest);
  }

  /** Whatever key is pressed, the editor does on its bytes what the action does on the sheet, and reads just the
      bytes of the key. */
  lemma PressActs(e: Edit, z: Sheet, keys: seq<Arrival>, a: Action, rest: seq<Arrival>, history: seq<bytes>,
                  letters: seq<Letters>) returns (e': Edit)
    requires Shows(e, z) && EditSpec.Valid(e, history) && SameHistory(history, letters)
    requires Pressed(keys, a) && !EndsInput(keys, z)
    ensures EditSpec.Valid(e', history) && Shows(e', Act(z, a, letters))
    ensures Typed(e, keys + rest, history) == Typed(e', rest, history)
  {
    var k := Coming(keys);
    assert |k| == |keys| && (keys != [] ==> k[0] == keys[0].b);
    hide Shows, Typed, SameHistory, Act, EditSpec.Valid, EndsInput;
    KeysOf(k, a);
    hide Codepoint, Spells;
    if k[0] == 27 {
      e' := EscapeActs(e, z, keys, a, rest, history, letters);
    } else if k[0] >= 0x80 {
      e' := LetterActs(e, z, keys, k, rest, history, letters);
    } else {
      e' := OneByteActs(e, z, keys, k[0], rest, history, letters);
    }
  }

  lemma KeysOf(k: seq<byte>, a: Action)
    requires Spells(k, a)
    ensures k != []
    ensures k[0] >= 0x80 ==> Codepoint(k) && a == Type(k)
    ensures k[0] < 0x80 && k[0] != 27 ==>
      k == [k[0]] && a == ActionOf(k[0]) && k[0] != 3 && k[0] != 10 && k[0] != 13
  {
  }

  // ----- whole lines -----

  datatype Press = Press(keys: seq<Arrival>, action: Action)

  function AllKeys(ps: seq<Press>): seq<Arrival> {
    if ps == [] then [] else ps[0].keys + AllKeys(ps[1..])
  }

  function ActAll(z: Sheet, ps: seq<Press>, letters: seq<Letters>): Sheet
    decreases |ps|
  {
    if ps == [] then z else ActAll(Act(z, ps[0].action, letters), ps[1..], letters)
  }

  predicate AllPressed(z: Sheet, ps: seq<Press>, letters: seq<Letters>)
    decreases |ps|
  {
    ps != [] ==>
      && Pressed(ps[0].keys, ps[0].action) && !EndsInput(ps[0].keys, z)
      && AllPressed(Act(z, ps[0].action, letters), ps[1..], letters)
  }

  lemma {:induction false} PressesAct(e: Edit, z: Sheet, ps: seq<Press>, rest: seq<Arrival>, history: seq<bytes>,
                                      letters: seq<Letters>) returns (e': Edit)
    requires Shows(e, z) && EditSpec.Valid(e, history) && SameHistory(history, letters) && AllPressed(z, ps, letters)
    ensures EditSpec.Valid(e', history) && Shows(e', ActAll(z, ps, letters))
    ensures Typed(e, AllKeys(ps) + rest, history) == Typed(e', rest, history)
    decreases |ps|
  {
    hide Shows, Typed, SameHistory, Act, EditSpec.Valid, EndsInput, Pressed;
    if ps == [] {
      assert [] + rest == rest;
      e' := e;
    } else {
      var more := AllKeys(ps[1..]) + rest;
      assert AllKeys(ps) + rest == ps[0].keys + more;
      e' := PressActs(e, z, ps[0].keys, ps[0].action, more, history, letters);
      e' := PressesAct(e', Act(z, ps[0].action, letters), ps[1..], rest, history, letters);
    }
  }

  function Blank(letters: seq<Letters>): Sheet { Sheet([], [], |letters|, []) }

  /** What Enter hands back is the sheet, whatever keys were pressed before: editing is editing of letters. */
  lemma EnterSubmitsTheSheet(ps: seq<Press>, enter: Arrival, rest: seq<Arrival>, history: seq<bytes>,
                             letters: seq<Letters>)
    requires SameHistory(history, letters) && AllPressed(Blank(letters), ps, letters) && (enter.b == 13 || enter.b == 10)
    ensures var z := ActAll(Blank(letters), ps, letters);
      Typed(Fresh(history), AllKeys(ps) + ([enter] + rest), history) == Ends(Submitted(Flat(z.before + z.after)), rest)
  {
    var e := Fresh(history);
    assert Shows(e, Blank(letters));
    assert EditSpec.Valid(e, history);
    hide AllPressed, SameHistory;
    var e' := PressesAct(e, Blank(letters), ps, [enter] + rest, history, letters);
    var z := ActAll(Blank(letters), ps, letters);
    hide ActAll, AllKeys;
    FlatConcat(z.before, z.after);
    assert ([enter] + rest)[1..] == rest;
    assert Key(e', [enter] + rest, history) == Ends(Submitted(e'.line.text), rest);
  }

  /** How a line ends but by Enter: Ctrl-C throws the line away; Ctrl-D on an empty line, and input that ends on one,
      end the input; input that ends elsewhere submits the line. */
  lemma HowElseALineEnds(e: Edit, b: Arrival, rest: seq<Arrival>, history: seq<bytes>)
    requires EditSpec.Valid(e, history)
    ensures b.b == 3 ==> Typed(e, [b] + rest, history) == Ends(Submitted([]), rest)
    ensures b.b == 4 && e.line.text == [] ==> Typed(e, [b] + rest, history) == Ends(EndOfInput, rest)
    ensures Typed(e, [], history) == Ends(if e.line.text == [] then EndOfInput else Submitted(e.line.text), [])
  {
    assert ([b] + rest)[0] == b && ([b] + rest)[1..] == rest;
  }

  /** Every good line is what some sheet shows. */
  lemma {:induction false} EveryTextIsLetters(s: bytes) returns (cs: Letters)
    requires WellFormed(s)
    ensures AreLetters(cs) && Flat(cs) == s
    decreases |s|
  {
    cs := [];
    if s != [] {
      var w := Width(s[0]);
      var c := s[..w];
      assert Codepoint(c);
      hide Codepoint, WellFormed, AreLetters;
      assert s == c + s[w..];
      var more := EveryTextIsLetters(s[w..]);
      cs := [c] + more;
      OneLetter(c);
      LettersConcat([c], more);
      assert cs[1..] == more;
    }
  }

  lemma OneLetter(c: bytes)
    requires Codepoint(c)
    ensures AreLetters([c])
  {
  }

  lemma GoodLineIsShown(l: Line) returns (before: Letters, after: Letters)
    requires GoodLine(l)
    ensures ShowsLine(l, before, after)
  {
    hide WellFormed, Codepoint, Flat, AreLetters, Boundary;
    var a, b := l.text[..l.pos], l.text[l.pos..];
    assert l.text == a + b;
    Cut(l.text, l.pos);
    before := EveryTextIsLetters(a);
    after := EveryTextIsLetters(b);
  }
}
