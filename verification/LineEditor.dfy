/**
  The editor as it runs (`src/lineedit.c`): one buffer, its length and the cursor, changed in place by each key.
  The terminal gives bytes and its width and takes rows.
*/
module LineEditor {
  import opened Wrappers
  import opened Bytes
  import opened Utf8
  import opened EditWindow
  import opened EditSpec
  import opened EditRuns

  /** What `le_refresh` writes: part of the line, and the column the cursor is left in. */
  datatype Row = Row(text: bytes, column: nat)

  function RowOf(l: Line, promptCols: nat, cols: nat): Row
    requires l.pos <= |l.text|
  {
    var avail := Available(cols, promptCols);
    var cursor := Cols(l.text[..l.pos]);
    var skip := SkipCols(cursor, avail);
    var start := Advance(l.text, 0, skip);
    Row(l.text[start..Advance(l.text, start, avail)], promptCols + (cursor - skip))
  }

  /** On text that can be painted the row is the plain loop's, it fits, and the cursor is in it, on the column
      of the codepoint it stands at. */
  lemma RowIsRight(l: Line, promptCols: nat, cols: nat)
    requires Paintable(l.text, l.pos)
    ensures var row, avail := RowOf(l, promptCols, cols), Available(cols, promptCols);
      var start := WhileOffScreen(l.text, l.pos, 0, avail);
      && start <= l.pos <= start + |row.text| <= |l.text|
      && row.text == l.text[start..start + |row.text|]
      && Cols(row.text) <= avail && (start + |row.text| < |l.text| ==> Cols(row.text) == avail)
      && row.column == promptCols + Cols(l.text[start..l.pos]) < promptCols + avail
  {
    var avail := Available(cols, promptCols);
    OnePassIsWhileOffScreen(l.text, l.pos, avail);
    WindowHoldsCursor(l.text, l.pos, avail);
  }

  /** The width the terminal gives when it is next asked: 80 when it does not say. */
  function WidthOf(widths: seq<nat>): nat { if widths != [] && widths[0] > 0 then widths[0] else 80 }

  /** The rows painted from edit `e` on, one after each key that does not end the line. */
  function RowsAfter(e: Edit, input: seq<Arrival>, history: seq<bytes>, promptCols: nat, widths: seq<nat>): seq<Row>
    requires EditSpec.Valid(e, history)
    decreases |input|
  {
    var step := Key(e, input, history);
    if step.Ends? then []
    else [RowOf(step.edit.line, promptCols, WidthOf(widths))]
         + RowsAfter(step.edit, step.rest, history, promptCols, Later(widths))
  }

  /** Each row fits the width there was and leaves the cursor in it. */
  ghost predicate AllFit(rows: seq<Row>, promptCols: nat, widths: seq<nat>)
    decreases |rows|
  {
    rows != [] ==>
      && Cols(rows[0].text) <= Available(WidthOf(widths), promptCols)
      && promptCols <= rows[0].column < promptCols + Available(WidthOf(widths), promptCols)
      && AllFit(rows[1..], promptCols, Later(widths))
  }

  /** On a clean run every row painted fits and holds the cursor. */
  lemma {:induction false} EveryRowFits(e: Edit, input: seq<Arrival>, history: seq<bytes>, promptCols: nat, widths: seq<nat>)
    requires EditSpec.Valid(e, history) && AlwaysPaintable(e, input, history)
    ensures AllFit([RowOf(e.line, promptCols, WidthOf(widths))]
                   + RowsAfter(e, input, history, promptCols, Later(widths)), promptCols, widths)
    decreases |input|
  {
    hide Key, RowOf, Paintable;
    var row := RowOf(e.line, promptCols, WidthOf(widths));
    var rest := RowsAfter(e, input, history, promptCols, Later(widths));
    assert ([row] + rest)[1..] == rest;
    RowIsRight(e.line, promptCols, WidthOf(widths));
    var step := Key(e, input, history);
    if step.Goes? {
      EveryRowFits(step.edit, step.rest, history, promptCols, Later(widths));
    }
  }

  class Terminal {
    var input: seq<Arrival>
    var widths: seq<nat>
    var rows: seq<Row>

    /** `read_byte`. */
    method ReadByte() returns (ok: bool, b: byte)
      modifies this`input
      ensures ok == (old(input) != [])
      ensures ok ==> b == old(input)[0].b && input == old(input)[1..]
      ensures !ok ==> input == old(input)
    {
      if input == [] {
        return false, 0;
      }
      ok, b := true, input[0].b;
      input := input[1..];
    }

    /** `read_byte_soon`. */
    method ReadByteSoon() returns (ok: bool, b: byte)
      modifies this`input
      ensures ok == Soon(old(input))
      ensures ok ==> b == old(input)[0].b && input == old(input)[1..]
      ensures !ok ==> input == old(input)
    {
      if input == [] || !input[0].soon {
        return false, 0;
      }
      ok, b := ReadByte();
    }

    /** `terminal_cols`. */
    method Columns() returns (cols: nat)
      modifies this`widths
      ensures cols == WidthOf(old(widths)) && widths == Later(old(widths))
    {
      cols := 80;
      if widths != [] {
        if widths[0] > 0 {
          cols := widths[0];
        }
        widths := widths[1..];
      }
    }
  }

  method Utf8Prev(s: bytes, pos: nat) returns (r: nat)
    requires pos <= |s|
    ensures r == Prev(s, pos)
  {
    if pos == 0 {
      return 0;
    }
    r := pos - 1;
    while r > 0 && Continuation(s[r])
      invariant r < |s| && PrevFrom(s, r) == Prev(s, pos)
    {
      r := r - 1;
    }
  }

  method Utf8Next(s: bytes, pos: nat) returns (r: nat)
    ensures r == Next(s, pos)
  {
    if pos >= |s| {
      return |s|;
    }
    r := pos + 1;
    while r < |s| && Continuation(s[r])
      invariant r <= |s| && NextFrom(s, r) == Next(s, pos)
    {
      r := r + 1;
    }
  }

  method Utf8Cols(s: bytes, n: nat) returns (cols: nat)
    requires n <= |s|
    ensures cols == Cols(s[..n])
  {
    cols := 0;
    assert s[..0] == [];
    for i := 0 to n
      invariant cols == Cols(s[..i])
    {
      assert s[..i + 1][..i] == s[..i];
      if !Continuation(s[i]) {
        cols := cols + 1;
      }
    }
  }

  /** The part of the line shown: its start found by skipping columns once, its end by filling the row. */
  method Window(s: bytes, pos: nat, avail: nat) returns (cursor: nat, skip: nat, start: nat, end: nat)
    requires pos <= |s| && avail > 0
    ensures cursor == Cols(s[..pos]) && skip == SkipCols(cursor, avail) && skip <= cursor
    ensures start == Advance(s, 0, skip) && end == Advance(s, start, avail)
  {
    cursor := Utf8Cols(s, pos);
    skip := if cursor >= avail then cursor - avail + 1 else 0;
    start := 0;
    var seen: nat := 0;
    while seen < skip && start < |s|
      invariant seen <= skip && start <= |s|
      invariant Advance(s, start, skip - seen) == Advance(s, 0, skip)
    {
      start := Utf8Next(s, start);
      seen := seen + 1;
    }
    end := start;
    var shown: nat := 0;
    while shown < avail && end < |s|
      invariant shown <= avail && start <= end <= |s|
      invariant Advance(s, end, avail - shown) == Advance(s, start, avail)
    {
      end := Utf8Next(s, end);
      shown := shown + 1;
    }
  }

  lemma NoNulInsert(l: Line, s: bytes)
    requires l.pos <= |l.text| && NoNul(l.text) && NoNul(s)
    ensures NoNul(Insert(l, s).text)
  {
  }

  lemma {:induction false} CStringOf(s: bytes, more: bytes)
    requires NoNul(s) && more != [] && more[0] == 0
    ensures CString(s + more) == s
  {
    if s == [] {
      assert s + more == more;
    } else {
      assert (s + more)[1..] == s[1..] + more;
      CStringOf(s[1..], more);
    }
  }

  class LineState {
    var buf: array<byte>
    var len: nat
    var pos: nat
    const promptCols: nat

    ghost predicate Valid()
      reads this, buf
    {
      pos <= len < buf.Length && buf[len] == 0 && NoNul(buf[..len])
    }

    ghost function View(): (l: Line)
      requires Valid()
      reads this, buf
    {
      Line(buf[..len], pos)
    }

    constructor (cols: nat)
      ensures Valid() && fresh(buf) && View() == Line([], 0) && promptCols == cols
    {
      buf := new byte[128];
      len, pos, promptCols := 0, 0, cols;
      new;
      buf[0] := 0;
    }

    /** `le_grow`: the capacity doubles until there is room, and no further. */
    method Grow(need: nat)
      requires len <= buf.Length && buf.Length > 0
      modifies this`buf
      ensures len + need < buf.Length && (fresh(buf) || buf == old(buf))
      ensures buf[..len] == old(buf[..len])
      ensures buf.Length == old(buf.Length) || buf.Length <= 2 * (len + need)
    {
      if len + need + 1 <= buf.Length {
        return;
      }
      var cap := buf.Length;
      while len + need + 1 > cap
        invariant cap > 0 && (cap == buf.Length || cap <= 2 * (len + need))
        decreases len + need + 1 - cap
      {
        cap := cap * 2;
      }
      var next := new byte[cap];
      for i := 0 to len
        invariant buf == old(buf) && buf[..len] == old(buf[..len])
        invariant forall k :: 0 <= k < i ==> next[k] == buf[k]
      {
        next[i] := buf[i];
      }
      assert next[..len] == buf[..len];
      buf := next;
    }

    /** Room for `n` bytes at the cursor: what follows it moves up. */
    method MakeRoom(n: nat)
      requires pos <= len < buf.Length
      modifies this`buf, buf
      ensures len + n < buf.Length && (fresh(buf) || buf == old(buf))
      ensures forall i :: 0 <= i < pos ==> buf[i] == old(buf[..len])[i]
      ensures forall i :: pos + n <= i < len + n ==> buf[i] == old(buf[..len])[i - n]
    {
      Grow(n);
      assert forall i :: 0 <= i < len ==> buf[i] == buf[..len][i];
      forall i | pos + n <= i < len + n {
        buf[i] := buf[i - n];
      }
    }

    /** `le_insert`. */
    method InsertBytes(s: bytes)
      requires Valid() && NoNul(s)
      modifies this, buf
      ensures Valid() && (fresh(buf) || buf == old(buf)) && View() == Insert(old(View()), s)
    {
      hide NoNul;
      ghost var was := View();
      MakeRoom(|s|);
      forall i | pos <= i < pos + |s| {
        buf[i] := s[i - pos];
      }
      len := len + |s|;
      pos := pos + |s|;
      buf[len] := 0;
      assert buf[..len] == Insert(was, s).text;
      NoNulInsert(was, s);
    }

    /** `le_delete_range`. */
    method DeleteRange(from: nat, to: nat)
      requires Valid() && to <= len
      modifies this, buf
      ensures Valid() && buf == old(buf) && View() == Delete(old(View()), from, to)
    {
      if from >= to {
        return;
      }
      ghost var was := View();
      forall i | from <= i < from + (len - to) {
        buf[i] := buf[i + (to - from)];
      }
      len := len - (to - from);
      pos := from;
      buf[len] := 0;
      assert buf[..len] == was.text[..from] + was.text[to..];
    }

    /** `le_set`. */
    method Set(text: bytes)
      requires Valid() && NoNul(text)
      modifies this, buf
      ensures Valid() && (fresh(buf) || buf == old(buf)) && View() == AtEnd(text)
    {
      len := 0;
      Grow(|text|);
      forall i | 0 <= i < |text| {
        buf[i] := text[i];
      }
      len, pos := |text|, |text|;
      buf[len] := 0;
      assert buf[..len] == text;
    }

    /** `strdup` of the buffer. */
    method Copy() returns (s: bytes)
      requires Valid()
      ensures s == View().text && NoNul(s)
    {
      s := CString(buf[..]);
      assert buf[..] == buf[..len] + buf[len..];
      CStringOf(buf[..len], buf[len..]);
    }

    /** `le_refresh`. */
    method Refresh(term: Terminal)
      requires Valid()
      modifies term`widths, term`rows
      ensures term.rows == old(term.rows) + [RowOf(View(), promptCols, WidthOf(old(term.widths)))]
      ensures term.widths == Later(old(term.widths))
    {
      var cols := term.Columns();
      var avail := if cols > promptCols + 1 then cols - promptCols - 1 else 1;
      var cursor, skip, start, end := Window(buf[..len], pos, avail);
      term.rows := term.rows + [Row(buf[..len][start..end], promptCols + (cursor - skip))];
      assert term.rows == old(term.rows) + [RowOf(View(), promptCols, cols)];
    }

    /** Ctrl-W. */
    method WordBefore() returns (end: nat)
      requires Valid()
      ensures end == WordStart(View().text, pos) && end <= pos
    {
      ghost var s := View().text;
      end := pos;
      while end > 0 && Space(buf[end - 1])
        invariant end <= pos && BackOver(s, end, true) == BackOver(s, pos, true)
      {
        end := end - 1;
      }
      ghost var word := end;
      while end > 0 && !Space(buf[end - 1])
        invariant end <= word && BackOver(s, end, false) == BackOver(s, word, false)
      {
        end := end - 1;
      }
    }

    /** The keys of one byte. */
    method PlainKey(b: byte)
      requires Valid()
      modifies this, buf
      ensures Valid() && (fresh(buf) || buf == old(buf)) && View() == Plain(old(View()), b)
    {
      hide NoNul, Next, Prev, WordStart;
      var s := buf[..len];
      if b == 4 {
        var to := Utf8Next(s, pos);
        DeleteRange(pos, to);
      } else if b == 127 || b == 8 {
        if pos > 0 {
          var from := Utf8Prev(s, pos);
          DeleteRange(from, pos);
        }
      } else if b == 1 {
        pos := 0;
      } else if b == 5 {
        pos := len;
      } else if b == 2 {
        pos := Utf8Prev(s, pos);
      } else if b == 6 {
        pos := Utf8Next(s, pos);
      } else if b == 11 {
        KillToEnd();
      } else if b == 21 {
        DeleteRange(0, pos);
      } else if b == 23 {
        var end := WordBefore();
        DeleteRange(end, pos);
      } else if b == 9 {
        NotNul([32, 32]);
        InsertBytes([32, 32]);
      } else if b >= 32 {
        NotNul([b]);
        InsertBytes([b]);
      }
    }

    lemma NotNul(s: bytes)
      requires forall i :: 0 <= i < |s| ==> s[i] != 0
      ensures NoNul(s)
    {
    }

    /** Ctrl-K. */
    method KillToEnd()
      requires Valid()
      modifies this, buf
      ensures Valid() && buf == old(buf) && View() == AtEnd(old(View().text[..pos]))
    {
      ghost var was := View();
      len := pos;
      buf[len] := 0;
      assert buf[..len] == was.text[..pos];
    }

    /** Up and Down. */
    method Recall(up: bool, recall: nat, saved: bytes, history: seq<bytes>) returns (recall': nat, saved': bytes)
      requires Valid() && recall <= |history| && NoNul(saved)
      requires forall i :: 0 <= i < |history| ==> NoNul(history[i])
      modifies this, buf
      ensures Valid() && (fresh(buf) || buf == old(buf)) && NoNul(saved')
      ensures Edit(View(), recall', saved') == RecallStep(Edit(old(View()), recall, saved), up, history)
    {
      recall', saved' := recall, saved;
      if |history| == 0 {
        return;
      }
      if recall == |history| {
        saved' := Copy();
      }
      if up {
        if recall == 0 {
          return;
        }
        recall' := recall - 1;
      } else {
        if recall >= |history| {
          return;
        }
        recall' := recall + 1;
      }
      Set(if recall' == |history| then saved' else history[recall']);
    }

    /** What follows an Escape. */
    method EscapeKey(term: Terminal, recall: nat, saved: bytes, history: seq<bytes>)
      returns (recall': nat, saved': bytes)
      requires Valid() && recall <= |history| && NoNul(saved)
      requires forall i :: 0 <= i < |history| ==> NoNul(history[i])
      modifies this, buf, term`input
      ensures Valid() && (fresh(buf) || buf == old(buf)) && NoNul(saved')
      ensures var n := Taken(old(term.input));
        && term.input == old(term.input)[n..]
        && Edit(View(), recall', saved')
          == Perform(Edit(old(View()), recall, saved), Meaning(old(term.input)[..n]), history)
    {
      hide Next, Prev, NoNul, RecallStep;
      recall', saved' := recall, saved;
      ghost var input := term.input;
      var ok, a := term.ReadByteSoon();
      if !ok || (a != 91 && a != 79) {
        return;
      }
      var b;
      ok, b := term.ReadByteSoon();
      if !ok {
        return;
      }
      assert input[..2][1].b == b;
      if 48 <= b <= 57 {
        var t;
        ok, t := term.ReadByteSoon();
        if ok && t == 126 {
          assert input[..3][1].b == b && input[..3][2].b == t;
          if b == 51 {
            var to := Utf8Next(buf[..len], pos);
            DeleteRange(pos, to);
          } else if b == 49 || b == 55 {
            pos := 0;
          } else if b == 52 || b == 56 {
            pos := len;
          }
        }
        return;
      }
      match b
      case 67 => pos := Utf8Next(buf[..len], pos);
      case 68 => pos := Utf8Prev(buf[..len], pos);
      case 72 => pos := 0;
      case 70 => pos := len;
      case 65 => recall', saved' := Recall(true, recall, saved, history);
      case 66 => recall', saved' := Recall(false, recall, saved, history);
      case _ =>
    }
  }

  datatype Answer = GoOn(recall: nat, saved: bytes) | Over(outcome: Outcome)

  /** One key read and obeyed: the body of the loop of `line_edit`, without the repaint. */
  method ObeyKey(ls: LineState, term: Terminal, recall: nat, saved: bytes, history: seq<bytes>) returns (a: Answer)
    requires ls.Valid() && recall <= |history| && NoNul(saved)
    requires forall i :: 0 <= i < |history| ==> NoNul(history[i])
    modifies ls, ls.buf, term`input
    ensures ls.Valid() && (fresh(ls.buf) || ls.buf == old(ls.buf)) && (a.GoOn? ==> NoNul(a.saved))
    ensures Key(Edit(old(ls.View()), recall, saved), old(term.input), history)
      == match a
         case GoOn(r, kept) => Goes(Edit(ls.View(), r, kept), term.input)
         case Over(outcome) => Ends(outcome, term.input)
  {
    hide Perform, Plain, Taken, Meaning, NoNul;
    var ok, b := term.ReadByte();
    if !ok {
      if ls.len == 0 {
        return Over(EndOfInput);
      }
      var text := ls.Copy();
      return Over(Submitted(text));
    }
    if b == 13 || b == 10 {
      var text := ls.Copy();
      return Over(Submitted(text));
    } else if b == 3 {
      return Over(Submitted([]));
    } else if b == 4 && ls.len == 0 {
      return Over(EndOfInput);
    } else if b == 27 {
      var r, kept := ls.EscapeKey(term, recall, saved, history);
      return GoOn(r, kept);
    }
    ls.PlainKey(b);
    a := GoOn(recall, saved);
  }

  /** `line_edit`: the line the keys typed give, no key read past its end, and a row painted at the start and
      after every key that goes on. */
  method LineEdit(term: Terminal, prompt: bytes, history: seq<bytes>) returns (outcome: Outcome)
    requires forall i :: 0 <= i < |history| ==> NoNul(history[i])
    modifies term
    ensures Ends(outcome, term.input) == Typed(Fresh(history), old(term.input), history)
    ensures term.rows == old(term.rows)
      + [RowOf(Line([], 0), Cols(prompt), WidthOf(old(term.widths)))]
      + RowsAfter(Fresh(history), old(term.input), history, Cols(prompt), Later(old(term.widths)))
  {
    assert prompt[..|prompt|] == prompt;
    hide Key, RowOf, NoNul, Typed, RowsAfter;
    var promptCols := Utf8Cols(prompt, |prompt|);
    var ls := new LineState(promptCols);
    var recall: nat, saved: bytes := |history|, [];
    NoNulInNothing();
    ls.Refresh(term);
    ghost var e := Fresh(history);
    ghost var rows := term.rows + RowsAfter(e, term.input, history, promptCols, term.widths);
    while true
      invariant ls.Valid() && fresh(ls) && fresh(ls.buf) && recall <= |history| && NoNul(saved)
      invariant ls.promptCols == promptCols && e == Edit(ls.View(), recall, saved)
      invariant Typed(e, term.input, history) == Typed(Fresh(history), old(term.input), history)
      invariant rows == term.rows + RowsAfter(e, term.input, history, promptCols, term.widths)
      decreases |term.input|
    {
      ghost var was, input, shown, widths := e, term.input, term.rows, term.widths;
      OneKey(e, input, history, promptCols, widths);
      var a := ObeyKey(ls, term, recall, saved, history);
      if a.Over? {
        return a.outcome;
      }
      recall, saved := a.recall, a.saved;
      e := Edit(ls.View(), recall, saved);
      KeyShortens(was, input, history);
      ls.Refresh(term);
      OneRow(rows, shown, RowOf(e.line, promptCols, WidthOf(widths)),
             RowsAfter(e, term.input, history, promptCols, term.widths));
    }
  }

  lemma NoNulInNothing()
    ensures NoNul([])
  {
  }

  lemma KeyShortens(e: Edit, input: seq<Arrival>, history: seq<bytes>)
    requires EditSpec.Valid(e, history) && Key(e, input, history).Goes?
    ensures |Key(e, input, history).rest| < |input|
  {
  }

  /** One key: what is typed and painted from here is what it does and then what comes after it. */
  lemma OneKey(e: Edit, input: seq<Arrival>, history: seq<bytes>, promptCols: nat, widths: seq<nat>)
    requires EditSpec.Valid(e, history)
    ensures var step, rows := Key(e, input, history), RowsAfter(e, input, history, promptCols, widths);
      && (step.Ends? ==> Typed(e, input, history) == step && rows == [])
      && (step.Goes? ==> Typed(e, input, history) == Typed(step.edit, step.rest, history))
      && (step.Goes? ==> rows == [RowOf(step.edit.line, promptCols, WidthOf(widths))]
                           + RowsAfter(step.edit, step.rest, history, promptCols, Later(widths)))
  {
    hide Key, RowOf;
  }

  lemma OneRow(rows: seq<Row>, shown: seq<Row>, row: Row, more: seq<Row>)
    requires rows == shown + ([row] + more)
    ensures rows == (shown + [row]) + more
  {
  }
}
