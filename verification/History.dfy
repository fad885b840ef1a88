/** The lines the prompt remembers (`src/lineedit.c`, `line_history_add`). */
module History {
  import opened Bytes
  import opened EditSpec

  const MAX_HISTORY := 1000

  predicate Blank(line: bytes) { forall i :: 0 <= i < |line| ==> Space(line[i]) }

  predicate Repeats(lines: seq<bytes>, line: bytes) { lines != [] && lines[|lines| - 1] == line }

  /** What one call makes of the list. */
  function Added(lines: seq<bytes>, line: bytes): seq<bytes> {
    if Blank(line) || Repeats(lines, line) then lines
    else (if |lines| == MAX_HISTORY then lines[1..] else lines) + [line]
  }

  function AddedAll(lines: seq<bytes>): seq<bytes> {
    if lines == [] then [] else Added(AddedAll(lines[..|lines| - 1]), lines[|lines| - 1])
  }

  /** All lines that are not blank, each run of one line taken once. */
  function Distilled(lines: seq<bytes>): seq<bytes> {
    if lines == [] then []
    else
      var before, line := Distilled(lines[..|lines| - 1]), lines[|lines| - 1];
      if Blank(line) || Repeats(before, line) then before else before + [line]
  }

  function Last<T>(s: seq<T>, n: nat): seq<T> { if |s| <= n then s else s[|s| - n..] }

  /** Forgetting the oldest entry one at a time keeps exactly the last thousand of everything that would
      have been remembered without a limit. */
  lemma {:induction false} LastThousand(lines: seq<bytes>)
    ensures AddedAll(lines) == Last(Distilled(lines), MAX_HISTORY)
    ensures |AddedAll(lines)| <= MAX_HISTORY
  {
    if lines != [] {
      var before, line := lines[..|lines| - 1], lines[|lines| - 1];
      LastThousand(before);
      var kept, all := AddedAll(before), Distilled(before);
      assert all != [] ==> kept[|kept| - 1] == all[|all| - 1];
      if !Blank(line) && !Repeats(all, line) && |all| >= MAX_HISTORY {
        assert (all + [line])[|all| + 1 - MAX_HISTORY..] == all[|all| - MAX_HISTORY..][1..] + [line];
      }
    }
  }

  /** Nothing blank is remembered, and no line stands next to itself. */
  lemma {:induction false} NeverBlankNorTwice(lines: seq<bytes>)
    ensures forall i :: 0 <= i < |Distilled(lines)| ==> !Blank(Distilled(lines)[i])
    ensures forall i :: 0 < i < |Distilled(lines)| ==> Distilled(lines)[i - 1] != Distilled(lines)[i]
  {
    if lines != [] {
      NeverBlankNorTwice(lines[..|lines| - 1]);
    }
  }

  /** `line` is the last of the lines that is not blank. */
  ghost predicate LastSaid(lines: seq<bytes>, line: bytes) {
    exists j :: 0 <= j < |lines| && lines[j] == line && forall k :: j < k < |lines| ==> Blank(lines[k])
  }

  lemma {:induction false} LastIsLastSaid(lines: seq<bytes>, line: bytes)
    requires !Blank(line)
    ensures Repeats(Distilled(lines), line) <==> LastSaid(lines, line)
  {
    hide Blank;
    if lines != [] {
      var n := |lines| - 1;
      var before, last := lines[..n], lines[n];
      LastIsLastSaid(before, line);
      if j :| 0 <= j < |lines| && lines[j] == line && forall k :: j < k < |lines| ==> Blank(lines[k]) {
        assert j < n ==> before[j] == line && Blank(lines[n]) && forall k :: j < k < n ==> Blank(before[k]);
      }
      if Blank(last) && LastSaid(before, line) {
        var j :| 0 <= j < n && before[j] == line && forall k :: j < k < n ==> Blank(before[k]);
        assert lines[j] == line && forall k :: j < k < |lines| ==> Blank(lines[k]);
      }
      if last == line {
        assert LastSaid(lines, line);
      }
    }
  }

  /** A line is kept exactly when it is not blank and not the last one said, blank lines between them or not. */
  lemma KeptIff(lines: seq<bytes>, line: bytes)
    ensures Distilled(lines + [line]) ==
      if !Blank(line) && !LastSaid(lines, line) then Distilled(lines) + [line] else Distilled(lines)
  {
    assert (lines + [line])[..|lines|] == lines;
    if !Blank(line) {
      LastIsLastSaid(lines, line);
    }
  }

  /** `history`. */
  class Remembered {
    var lines: seq<bytes>

    constructor ()
      ensures lines == []
    {
      lines := [];
    }

    method Add(line: bytes)
      requires |lines| <= MAX_HISTORY
      modifies this
      ensures lines == Added(old(lines), line) && |lines| <= MAX_HISTORY
    {
      if |line| == 0 {
        return;
      }
      var blank := true;
      for i := 0 to |line|
        invariant blank && forall k :: 0 <= k < i ==> Space(line[k])
      {
        if !Space(line[i]) {
          blank := false;
          break;
        }
      }
      if blank {
        return;
      }
      if |lines| > 0 && lines[|lines| - 1] == line {
        return;
      }
      if |lines| == MAX_HISTORY {
        lines := lines[1..];
      }
      lines := lines + [line];
    }

    /** One line after another, from an empty history. */
    method AddAll(all: seq<bytes>)
      requires lines == []
      modifies this
      ensures lines == Last(Distilled(all), MAX_HISTORY)
    {
      assert all[..0] == [];
      for i := 0 to |all|
        invariant lines == AddedAll(all[..i]) && |lines| <= MAX_HISTORY
      {
        assert all[..i + 1][..i] == all[..i];
        Add(all[i]);
      }
      assert all[..|all|] == all;
      LastThousand(all);
    }
  }
}
