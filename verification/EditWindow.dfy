/**
  The part of a long line that one row shows (`src/lineedit.c`, `le_refresh`).  The code finds the start in one
  pass; the plain way is to advance it while the cursor is off the row.
*/
module EditWindow {
  import opened Bytes
  import opened Utf8

  /** `n` codepoints forward, or the end. */
  function Advance(s: bytes, from: nat, n: nat): (r: nat)
    requires from <= |s|
    ensures from <= r <= |s|
    decreases n
  {
    if n == 0 || from == |s| then from else Advance(s, Next(s, from), n - 1)
  }

  /** The columns left off at the front. */
  function SkipCols(cursor: nat, avail: nat): nat {
    if cursor >= avail then cursor - avail + 1 else 0
  }

  function Available(cols: nat, promptCols: nat): (avail: nat)
    ensures avail >= 1
  {
    if cols > promptCols + 1 then cols - promptCols - 1 else 1
  }

  /** Advance while the cursor is off the row, counting its columns anew each time. */
  function WhileOffScreen(s: bytes, pos: nat, start: nat, avail: nat): (r: nat)
    requires start <= pos <= |s| && Boundary(s, pos) && avail >= 1
    ensures start <= r <= pos && (Boundary(s, start) ==> Boundary(s, r))
    decreases pos - start
  {
    if Cols(s[start..pos]) < avail || start == pos then start
    else WhileOffScreen(s, pos, Next(s, start), avail)
  }

  /** Text that can be painted: the row never starts inside a codepoint and nor does the cursor. */
  predicate Paintable(s: bytes, pos: nat) { pos <= |s| && Boundary(s, 0) && Boundary(s, pos) }

  lemma ColsBetween(s: bytes, a: nat, b: nat)
    requires a <= b <= |s|
    ensures Cols(s[a..b]) == Cols(s[..b]) - Cols(s[..a])
  {
    assert s[..b] == s[..a] + s[a..b];
    ColsAdd(s[..a], s[a..b]);
  }

  /** From any boundary, the one pass gets where the plain loop gets. */
  lemma {:induction false} OnePassFrom(s: bytes, pos: nat, start: nat, avail: nat)
    requires start <= pos <= |s| && Boundary(s, start) && Boundary(s, pos) && avail >= 1
    ensures Advance(s, start, SkipCols(Cols(s[start..pos]), avail)) == WhileOffScreen(s, pos, start, avail)
    ensures Cols(s[WhileOffScreen(s, pos, start, avail)..pos])
         == Cols(s[start..pos]) - SkipCols(Cols(s[start..pos]), avail)
    decreases pos - start
  {
    hide Cols;
    ColsOfContinuations([]);
    assert start == pos ==> s[start..pos] == [];
    if Cols(s[start..pos]) >= avail && start < pos {
      var next := Next(s, start);
      NextIsOneColumn(s, start);
      ColsBetween(s, start, pos);
      ColsBetween(s, next, pos);
      OnePassFrom(s, pos, next, avail);
    }
  }

  /** The one-pass start is the start of the plain loop. */
  lemma OnePassIsWhileOffScreen(s: bytes, pos: nat, avail: nat)
    requires Paintable(s, pos) && avail >= 1
    ensures Advance(s, 0, SkipCols(Cols(s[..pos]), avail)) == WhileOffScreen(s, pos, 0, avail)
  {
    assert s[0..pos] == s[..pos];
    OnePassFrom(s, pos, 0, avail);
  }

  /** `n` steps pass `n` columns unless the text ends first. */
  lemma {:induction false} AdvancePasses(s: bytes, from: nat, n: nat)
    requires from <= |s| && Boundary(s, from)
    ensures Cols(s[from..Advance(s, from, n)]) <= n
    ensures Advance(s, from, n) < |s| ==> Cols(s[from..Advance(s, from, n)]) == n
    decreases n
  {
    hide Cols;
    ColsOfContinuations([]);
    assert s[from..from] == [];
    if n > 0 && from < |s| {
      var next := Next(s, from);
      NextIsOneColumn(s, from);
      AdvancePasses(s, next, n - 1);
      ColsBetween(s, from, Advance(s, from, n));
      ColsBetween(s, next, Advance(s, from, n));
    }
  }

  /** The row shows at most `avail` columns, fills them unless the text ends, and has the cursor on it. */
  lemma WindowHoldsCursor(s: bytes, pos: nat, avail: nat)
    requires Paintable(s, pos) && avail >= 1
    ensures var skip := SkipCols(Cols(s[..pos]), avail);
      var start := Advance(s, 0, skip);
      var end := Advance(s, start, avail);
      && start <= pos <= end && Cols(s[start..end]) <= avail
      && (end < |s| ==> Cols(s[start..end]) == avail)
      && Cols(s[start..pos]) == Cols(s[..pos]) - skip < avail
  {
    assert s[0..pos] == s[..pos];
    OnePassFrom(s, pos, 0, avail);
    var start := WhileOffScreen(s, pos, 0, avail);
    var end := Advance(s, start, avail);
    AdvancePasses(s, start, avail);
    hide Cols, Advance, WhileOffScreen, Next;
    if end < pos {
      ColsBetween(s, start, end);
      ColsBetween(s, start, pos);
      ColsBetween(s, end, pos);
    }
  }

  /** As many steps as there are columns left stay short of the cursor, each passing one column. */
  lemma {:induction false} AdvanceTowards(s: bytes, pos: nat, from: nat, n: nat)
    requires from <= pos <= |s| && Boundary(s, from) && Boundary(s, pos) && n <= Cols(s[from..pos])
    ensures Advance(s, from, n) <= pos && Cols(s[Advance(s, from, n)..pos]) == Cols(s[from..pos]) - n
    decreases n
  {
    hide Cols;
    ColsOfContinuations([]);
    assert from == pos ==> s[from..pos] == [];
    if n > 0 {
      var next := Next(s, from);
      NextIsOneColumn(s, from);
      ColsBetween(s, from, pos);
      ColsBetween(s, next, pos);
      AdvanceTowards(s, pos, next, n - 1);
    }
  }

  /** On text that starts inside a codepoint, with the cursor off the row, the one pass stops a codepoint
      short: its first step passes no column. */
  lemma StrayStart(s: bytes, pos: nat, avail: nat)
    requires pos <= |s| && Boundary(s, pos) && avail >= 1 && !Boundary(s, 0) && Cols(s[..pos]) >= avail
    ensures var start := Advance(s, 0, SkipCols(Cols(s[..pos]), avail));
      start < WhileOffScreen(s, pos, 0, avail) && Cols(s[start..pos]) == avail
  {
    hide Cols;
    var c := Cols(s[..pos]);
    var skip := SkipCols(c, avail);
    ColsOfContinuations([]);
    assert s[0..pos] == s[..pos];
    var n := Next(s, 0);
    ColsOfContinuations(s[..n]);
    ColsBetween(s, n, pos);
    AdvanceTowards(s, pos, n, skip - 1);
    OnePassFrom(s, pos, n, avail);
    assert Advance(s, 0, skip) == Advance(s, n, skip - 1);
    AdvanceGoesOn(s, n, skip - 1);
    assert s[pos..pos] == [];
  }

  lemma {:induction false} AdvanceGoesOn(s: bytes, from: nat, n: nat)
    requires from <= |s|
    ensures var at := Advance(s, from, n);
      Advance(s, from, n + 1) == Next(s, at) && (at < |s| ==> at < Next(s, at))
    decreases n
  {
    if n > 0 && from < |s| {
      AdvanceGoesOn(s, Next(s, from), n - 1);
    }
  }

  /** Whatever the text, with the cursor between codepoints: the one pass starts the row where the plain loop
      does, and has the cursor on it, if and only if the text does not start inside a codepoint or no
      scrolling was needed. */
  lemma OnePassIff(s: bytes, pos: nat, avail: nat)
    requires pos <= |s| && Boundary(s, pos) && avail >= 1
    ensures var start := Advance(s, 0, SkipCols(Cols(s[..pos]), avail));
      && start <= pos
      && (start == WhileOffScreen(s, pos, 0, avail) <==> Boundary(s, 0) || Cols(s[..pos]) < avail)
      && (Cols(s[start..pos]) < avail <==> Boundary(s, 0) || Cols(s[..pos]) < avail)
  {
    assert s[0..pos] == s[..pos];
    if Boundary(s, 0) {
      OnePassIsWhileOffScreen(s, pos, avail);
      WindowHoldsCursor(s, pos, avail);
    } else if Cols(s[..pos]) >= avail {
      StrayStart(s, pos, avail);
    }
  }

  /** A continuation byte and two letters in a row of one column: the cursor is left off it. */
  lemma StrayStartShiftsTheRow()
    ensures var s: bytes := [0x80, 0x61, 0x62];
      && Boundary(s, 3) && Cols(s) == 2
      && Advance(s, 0, SkipCols(Cols(s), 1)) == 2 && WhileOffScreen(s, 3, 0, 1) == 3
  {
    var s: bytes := [0x80, 0x61, 0x62];
    assert s[..2] == [0x80, 0x61] && s[..2][..1] == [0x80] && s[2..3] == [0x62] && s[..3] == s;
    assert Cols([0x80]) == Cols([]) + 0;
    assert Cols(s[..2]) == 1;
    assert Next(s, 0) == 1 && Next(s, 1) == 2;
    assert Advance(s, 0, 2) == Advance(s, 1, 1) == Advance(s, 2, 0);
    StrayStart(s, 3, 1);
  }
}
