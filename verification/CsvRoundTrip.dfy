/** Reading undoes writing (section 2 of RFC 4180), and exactly when. */
module CsvRoundTrip {
  import opened Bytes
  import opened CsvSpec
  import opened CsvLimits
  import opened CsvFields
  import opened CsvWriter

  // ----- one record -----

  /** What a field is written as. */
  ghost function PieceFor(f: bytes, d: Dialect): Piece {
    if NeedsQuote(f, d) then InQuotes(f, []) else Bare(f)
  }

  ghost function PiecesFor(fs: seq<bytes>, d: Dialect): seq<Piece> {
    if |fs| == 1 && fs[0] == [] then [InQuotes([], [])]
    else seq(|fs|, i requires 0 <= i < |fs| => PieceFor(fs[i], d))
  }

  lemma PieceForIsProper(f: bytes, d: Dialect)
    requires WfDialect(d) && FieldText(f, d).Text?
    ensures var p := PieceFor(f, d); Proper(p, d) && Spelt(p, d) == FieldText(f, d).text && p.Value() == f && !p.Spoilt()
  {
    var p := PieceFor(f, d);
    assert forall i :: 0 <= i < |f| && !NeedsQuote(f, d) ==> !Special(f[i], d);
    assert p.InQuotes? ==> f + [] == f && Spelt(p, d) == FieldText(f, d).text + [];
  }

  lemma {:induction false} FieldsTextPieces(fs: seq<bytes>, d: Dialect)
    requires WfDialect(d) && fs != [] && FieldsText(fs, d).Text?
    ensures var ps := seq(|fs|, i requires 0 <= i < |fs| => PieceFor(fs[i], d));
      AllProper(ps, d) && SpeltAll(ps, d) == FieldsText(fs, d).text && Values(ps) == fs && !SomeSpoilt(ps)
    decreases |fs|
  {
    var ps := seq(|fs|, i requires 0 <= i < |fs| => PieceFor(fs[i], d));
    PieceForIsProper(fs[0], d);
    if |fs| > 1 {
      FieldsTextPieces(fs[1..], d);
      var more := seq(|fs| - 1, i requires 0 <= i < |fs| - 1 => PieceFor(fs[1..][i], d));
      assert ps == [ps[0]] + more;
      SpeltOneMore(ps[0], more, d);
      assert ps[1..] == more;
      hide PieceFor, Proper, Spelt, FieldText, SpeltAll, FieldsText;
      SpoiltOneMore(ps);
      forall i | 0 <= i < |fs| ensures ps[i].Value() == fs[i] {
        assert i > 0 ==> Values(more)[i - 1] == fs[i];
      }
    } else {
      assert ps == [ps[0]];
      SpeltOneMore(ps[0], [], d);
    }
  }

  lemma RecordTextPieces(fs: seq<bytes>, d: Dialect)
    requires WfDialect(d) && fs != [] && RecordText(fs, d).Text?
    ensures var ps := PiecesFor(fs, d);
      && ps != [] && AllProper(ps, d) && Values(ps) == fs && !SomeSpoilt(ps)
      && SpeltAll(ps, d) == RecordText(fs, d).text && RecordText(fs, d).text != []
  {
    FieldsTextPieces(fs, d);
    if |fs| == 1 && fs[0] == [] {
      var p := InQuotes([], []);
      assert PiecesFor(fs, d) == [p] && fs == [[]];
      assert FieldsText(fs, d).text == [];
      SpeltOneMore(p, [], d);
      assert [p] + [] == [p];
      assert Doubled([], d.quote as byte) == [];
    } else if |fs| > 1 {
      hide FieldsText;
    }
  }

  lemma PiecesStart(ps: seq<Piece>, d: Dialect, tail: bytes)
    requires Sensible(d) && AllProper(ps, d) && SpeltAll(ps, d) != []
    ensures !IsBreak(Peek(SpeltAll(ps, d) + tail))
  {
    var s := SpeltAll(ps, d);
    assert Proper(ps[0], d);
    assert (s + tail)[0] == s[0];
    if Spelt(ps[0], d) == [] {
      assert s[0] == d.delimiter as byte;
    } else {
      assert s[0] == Spelt(ps[0], d)[0];
    }
  }

  /** A record that fits is read back as it was written, with nothing else consumed. */
  lemma RecordReads(st: State, fs: seq<bytes>, end: bytes, more: bytes, d: Dialect)
    requires Sensible(d) && fs != [] && RecordText(fs, d).Text? && LineEnd(end) && |Join(fs)| <= d.limit
    requires !st.fails && SkipBom(st).rest == RecordText(fs, d).text + end + more
    ensures var (o, st') := Next(st, d);
      && o.Got? && FieldsOf(o.record) == fs && o.record.problem.NoProblem?
      && st'.at.rest == more && st'.started && !st'.fails
  {
    var text, ps, tail := RecordText(fs, d).text, PiecesFor(fs, d), end + more;
    RecordTextPieces(fs, d);
    PiecesStart(ps, d, tail);
    var rest := SkipBom(st).rest;
    assert rest == text + tail && rest == [] + rest;
    LineEndIsPast(end, more);
    assert Holds(rest, ps, tail, d);
    hide *;
    PiecesAreNext(st, [], rest, ps, tail, d);
    NextStarts(st, d);
  }

  lemma LineEndIsPast(end: bytes, more: bytes)
    requires LineEnd(end)
    ensures PastBreak(end + more) == more && AtEnd(end + more)
  {
    var tail := end + more;
    if end == [CR, LF] {
      assert tail[1] == LF && tail[2..] == more;
    } else {
      assert tail[0] == LF && tail[1..] == more;
    }
  }

  lemma NextStarts(st: State, d: Dialect)
    requires WfDialect(d)
    ensures Next(st, d).1.started && Next(st, d).1.fails == st.fails
  {
    hide Fields, SkipBlank, SkipBom;
  }

  // ----- a whole text -----

  function RowsOf(rs: seq<Record>): seq<seq<bytes>> {
    seq(|rs|, i requires 0 <= i < |rs| => FieldsOf(rs[i]))
  }

  /** Every record fits: it has a field, and no more content than the reader takes. */
  predicate Fit(rows: seq<seq<bytes>>, d: Dialect) {
    forall i :: 0 <= i < |rows| ==> rows[i] != [] && |Join(rows[i])| <= d.limit
  }

  ghost predicate ReadsAs(st: State, rows: seq<seq<bytes>>, d: Dialect)
    requires WfDialect(d)
  {
    var (rs, o) := ReadAll(st, d);
    && RowsOf(rs) == rows && o == EndOfInput
    && forall i :: 0 <= i < |rs| ==> rs[i].problem.NoProblem?
  }

  lemma ReadsOneMore(st: State, fs: seq<bytes>, rows: seq<seq<bytes>>, d: Dialect)
    requires WfDialect(d)
    requires var (o, st') := Next(st, d);
      o.Got? && FieldsOf(o.record) == fs && o.record.problem.NoProblem? && ReadsAs(st', rows, d)
    ensures ReadsAs(st, [fs] + rows, d)
  {
    hide Next, FieldsOf;
    var (o, st') := Next(st, d);
    var rest := ReadAll(st', d).0;
    assert ReadAll(st, d).0 == [o.record] + rest;
    assert RowsOf([o.record] + rest) == [FieldsOf(o.record)] + RowsOf(rest);
  }

  /** Records that fit are read back as written, unless a byte order mark is taken for one. */
  lemma {:induction false} RowsRead(st: State, rows: seq<seq<bytes>>, end: bytes, d: Dialect)
    requires Sensible(d) && AllText(rows, d, end).Text? && LineEnd(end) && Fit(rows, d)
    requires !st.fails && SkipBom(st).rest == AllText(rows, d, end).text
    ensures ReadsAs(st, rows, d)
    decreases |rows|
  {
    if rows == [] {
      assert SkipBlank(SkipBom(st)).rest == [];
    } else {
      var more := AllText(rows[1..], d, end).text;
      assert AllText(rows, d, end).text == RecordText(rows[0], d).text + end + more;
      hide RecordText, SkipBlank, Fields;
      RecordReads(st, rows[0], end, more, d);
      var st' := Next(st, d).1;
      assert SkipBom(st').rest == more;
      hide Next, AllText;
      RowsRead(st', rows[1..], end, d);
      ReadsOneMore(st, rows[0], rows[1..], d);
      assert [rows[0]] + rows[1..] == rows;
    }
  }

  // ----- exactly when -----

  /** Whatever the text, every record read has a field and is within the limit. */
  lemma {:induction false} RowsReadFit(st: State, d: Dialect)
    requires WfDialect(d)
    ensures Fit(RowsOf(ReadAll(st, d).0), d)
    decreases |st.at.rest|
  {
    hide Next, FieldsOf, Join;
    var (o, st') := Next(st, d);
    RecordsAreShaped(st, d);
    if o.Got? {
      RowsReadFit(st', d);
      var rest := ReadAll(st', d).0;
      assert RowsOf([o.record] + rest) == [FieldsOf(o.record)] + RowsOf(rest);
    }
  }

  /** What follows the first field in a record's text. */
  ghost function AfterFirstField(fs: seq<bytes>, d: Dialect): bytes
    requires WfDialect(d)
  {
    if |fs| <= 1 then []
    else match FieldsText(fs[1..], d) case CannotWrite => [] case Text(t) => [d.delimiter as byte] + t
  }

  lemma BareFirstField(fs: seq<bytes>, d: Dialect)
    requires WfDialect(d) && fs != [] && fs != [[]] && RecordText(fs, d).Text? && !NeedsQuote(fs[0], d)
    ensures RecordText(fs, d) == FieldsText(fs, d) == Text(fs[0] + AfterFirstField(fs, d))
  {
    assert FieldText(fs[0], d) == Text(fs[0]);
    hide NeedsQuote, FieldText;
    if |fs| == 1 {
      assert fs == [fs[0]];
      assert fs[0] + [] == fs[0];
    } else {
      Chain(fs[0], [d.delimiter as byte], FieldsText(fs[1..], d).text);
    }
  }

  /** A quoted first field, or a record of one empty field, starts with the quote. */
  lemma QuotedFirstField(fs: seq<bytes>, d: Dialect)
    requires WfDialect(d) && fs != [] && RecordText(fs, d).Text?
    requires NeedsQuote(fs[0], d) || fs == [[]]
    ensures RecordText(fs, d).text != [] && RecordText(fs, d).text[0] as int == d.quote
  {
    if NeedsQuote(fs[0], d) {
      var first := FieldText(fs[0], d).text;
      assert first[0] as int == d.quote;
      hide NeedsQuote, FieldText, Doubled;
      assert first <= FieldsText(fs, d).text;
    }
  }

  lemma BomIsInFirst(f: bytes, tail: bytes)
    requires tail != [] && tail[0] < 128 && BOM <= f + tail
    ensures BOM <= f
  {
    var t := f + tail;
    assert t[|f|] == tail[0];
    assert t[0] == 0xEF && t[1] == 0xBB && t[2] == 0xBF;
    assert t[..3] == f[..3];
  }

  /** With an ASCII quote, a text that starts with the three bytes of a byte order mark starts with an
      unquoted field that does. */
  lemma BomFieldIsBare(rows: seq<seq<bytes>>, end: bytes, d: Dialect)
    requires Sensible(d) && d.quote < 128 && LineEnd(end) && Fit(rows, d)
    requires AllText(rows, d, end).Text? && BOM <= AllText(rows, d, end).text
    ensures rows != [] && !NeedsQuote(rows[0][0], d) && BOM <= rows[0][0]
  {
    hide NeedsQuote, FieldsText, Join, RecordText;
    var t := AllText(rows, d, end).text;
    assert t[0] == 0xEF;
    var fs, f, rt := rows[0], rows[0][0], RecordText(rows[0], d).text;
    var more := end + AllText(rows[1..], d, end).text;
    assert t == rt + more;
    assert rt != [] ==> t[0] == rt[0];
    if NeedsQuote(f, d) || fs == [[]] {
      QuotedFirstField(fs, d);
    } else {
      BareFirstField(fs, d);
      hide AllText;
      var tail := AfterFirstField(fs, d) + more;
      assert t == f + tail;
      BomIsInFirst(f, tail);
    }
  }

  /** The rows as they come back when the mark is taken off the first field. */
  function WithoutBom(rows: seq<seq<bytes>>): seq<seq<bytes>>
    requires rows != [] && rows[0] != [] && |rows[0][0]| >= 3
  {
    if rows[0] == [rows[0][0][..3]] then rows[1..] else [[rows[0][0][3..]] + rows[0][1..]] + rows[1..]
  }

  lemma BareSuffix(f: bytes, d: Dialect)
    requires !NeedsQuote(f, d) && |f| >= 3
    ensures !NeedsQuote(f[3..], d) && FieldText(f[3..], d) == Text(f[3..])
  {
    assert forall i :: 0 <= i < |f[3..]| ==> f[3..][i] == f[i + 3];
  }

  lemma DropThree(f: bytes, a: bytes, b: bytes, c: bytes)
    requires |f| >= 3
    ensures (f + a + b + c)[3..] == f[3..] + a + b + c
  {
  }

  lemma FirstRow(rows: seq<seq<bytes>>, end: bytes, d: Dialect)
    requires WfDialect(d) && rows != []
    ensures var first, more := RecordText(rows[0], d), AllText(rows[1..], d, end);
      AllText(rows, d, end) == if first.Text? && more.Text? then Text(first.text + end + more.text) else CannotWrite
  {
  }

  lemma TextWithoutBom(rows: seq<seq<bytes>>, end: bytes, d: Dialect)
    requires Sensible(d) && LineEnd(end) && rows != [] && rows[0] != []
    requires AllText(rows, d, end).Text? && !NeedsQuote(rows[0][0], d) && |rows[0][0]| >= 3
    ensures var t, rows' := AllText(rows, d, end).text, WithoutBom(rows);
      && |t| >= 3 && AllText(rows', d, end).Text?
      && t[3..] == (if |rows'| < |rows| then end else []) + AllText(rows', d, end).text
  {
    hide NeedsQuote, FieldText, Doubled, Join, LineEnd, AllText;
    FirstRow(rows, end, d);
    var fs, f := rows[0], rows[0][0];
    var g := f[3..];
    BareFirstField(fs, d);
    var after := AfterFirstField(fs, d);
    var more := AllText(rows[1..], d, end).text;
    var t := AllText(rows, d, end).text;
    assert fs == [f[..3]] ==> f == f[..3] && after == [];
    hide RecordText, FieldsText, AfterFirstField;
    assert t == f + after + end + more;
    DropThree(f, after, end, more);
    if fs == [f[..3]] {
      assert g == [];
    } else {
      var fs' := [g] + fs[1..];
      var rows' := [fs'] + rows[1..];
      assert rows'[1..] == rows[1..];
      FirstRow(rows', end, d);
      RecordWithoutThree(fs, d);
      assert AllText(rows', d, end) == Text(g + after + end + more);
    }
  }

  lemma RecordWithoutThree(fs: seq<bytes>, d: Dialect)
    requires WfDialect(d) && fs != [] && RecordText(fs, d).Text? && !NeedsQuote(fs[0], d) && |fs[0]| >= 3
    requires fs != [fs[0][..3]]
    ensures RecordText([fs[0][3..]] + fs[1..], d) == Text(fs[0][3..] + AfterFirstField(fs, d))
  {
    hide NeedsQuote, FieldText, Doubled;
    var g := fs[0][3..];
    var fs' := [g] + fs[1..];
    assert fs'[1..] == fs[1..];
    if fs' == [[]] {
      OneEmptyRest(fs);
      assert false;
    }
    BareSuffix(fs[0], d);
    BareFirstField(fs, d);
    RestIsWritable(fs, g, d);
    BareFirstField(fs', d);
  }

  lemma OneEmptyRest(fs: seq<bytes>)
    requires fs != [] && |fs[0]| >= 3 && [fs[0][3..]] + fs[1..] == [[]]
    ensures fs == [fs[0][..3]]
  {
    assert ([fs[0][3..]] + fs[1..])[0] == fs[0][3..];
    assert |[fs[0][3..]] + fs[1..]| == |fs|;
    assert |fs| == 1 && |fs[0]| == 3;
    assert fs[0][..3] == fs[0];
  }

  lemma RestIsWritable(fs: seq<bytes>, g: bytes, d: Dialect)
    requires WfDialect(d) && fs != [] && FieldsText(fs, d).Text? && FieldText(g, d) == Text(g)
    requires [g] + fs[1..] != [[]]
    ensures RecordText([g] + fs[1..], d).Text?
  {
    var fs' := [g] + fs[1..];
    assert fs'[1..] == fs[1..];
    if |fs'| == 1 {
      assert fs' == [g];
    }
  }

  lemma BlankFirst(at: Cursor, end: bytes, more: bytes)
    requires LineEnd(end) && at.rest == end + more && !IsBreak(Peek(more))
    ensures SkipBlank(at) == Cursor(more, at.line + 1)
  {
    if end == [CR, LF] {
      assert at.rest[1] == LF && at.rest[2..] == more;
    } else {
      assert at.rest[1..] == more;
    }
    assert TakeBreak(at) == Cursor(more, at.line + 1);
    assert SkipBlank(TakeBreak(at)) == TakeBreak(at);
  }

  /** Rows that fit are lost again only to a byte order mark; then the rows read are others. */
  lemma BomIsLost(rows: seq<seq<bytes>>, end: bytes, d: Dialect)
    requires Sensible(d) && d.quote < 128 && LineEnd(end) && Fit(rows, d)
    requires AllText(rows, d, end).Text? && BOM <= AllText(rows, d, end).text
    ensures var t := AllText(rows, d, end).text;
      ReadsAs(Open(t, |t|, false), WithoutBomOrSame(rows), d) && WithoutBomOrSame(rows) != rows
  {
    var t := AllText(rows, d, end).text;
    BomFieldIsBare(rows, end, d);
    TextWithoutBom(rows, end, d);
    var rows' := WithoutBom(rows);
    var st := Open(t, |t|, false);
    var more := AllText(rows', d, end).text;
    assert Fit(rows', d) by {
      FitWithoutBom(rows, d);
    }
    hide NeedsQuote, ReadAll, Join;
    assert SkipBom(st).rest == t[3..];
    if |rows'| == |rows| {
      assert [] + more == more;
      hide AllText;
      RowsRead(st, rows', end, d);
      assert rows'[0][0] != rows[0][0];
    } else {
      TextStart(rows', end, d);
      hide AllText;
      var st' := State(true, 0, false, |t| - |more|, Cursor(more, SkipBom(st).line + 1));
      RowsRead(st', rows', end, d);
      SameAfterBlank(st, st', end, more, d);
    }
  }

  function WithoutBomOrSame(rows: seq<seq<bytes>>): seq<seq<bytes>> {
    if rows != [] && rows[0] != [] && |rows[0][0]| >= 3 then WithoutBom(rows) else rows
  }

  lemma FitWithoutBom(rows: seq<seq<bytes>>, d: Dialect)
    requires Fit(rows, d) && rows != [] && |rows[0][0]| >= 3
    ensures Fit(WithoutBom(rows), d)
  {
    var fs := rows[0];
    var fs' := [fs[0][3..]] + fs[1..];
    assert fs'[1..] == fs[1..];
    assert Join(fs) == fs[0] + Join(fs[1..]) && Join(fs') == fs[0][3..] + Join(fs[1..]);
  }

  /** No text begins with a line break. */
  lemma TextStart(rows: seq<seq<bytes>>, end: bytes, d: Dialect)
    requires Sensible(d) && LineEnd(end) && Fit(rows, d) && AllText(rows, d, end).Text?
    ensures !IsBreak(Peek(AllText(rows, d, end).text))
  {
    if rows != [] {
      var rt, more := RecordText(rows[0], d).text, end + AllText(rows[1..], d, end).text;
      RecordTextPieces(rows[0], d);
      PiecesStart(PiecesFor(rows[0], d), d, more);
      assert AllText(rows, d, end).text == rt + more;
    }
  }

  /** A blank line in front makes no difference to the rows. */
  lemma SameAfterBlank(st: State, st': State, end: bytes, more: bytes, d: Dialect)
    requires WfDialect(d) && LineEnd(end) && SkipBom(st).rest == end + more && !IsBreak(Peek(more))
    requires st' == State(true, 0, false, |st.at.rest| - |more| + st.consumed, Cursor(more, SkipBom(st).line + 1))
    requires !st.fails && |more| <= |st.at.rest|
    ensures ReadAll(st, d) == ReadAll(st', d)
  {
    var c := SkipBlank(SkipBom(st));
    BlankFirst(SkipBom(st), end, more);
    assert SkipBlank(SkipBom(st')) == c;
    var a, b := Next(st, d), Next(st', d);
    hide SkipBlank, SkipBom, Fields;
    assert a.0 == b.0 && a.1.at == b.1.at && a.1.consumed == b.1.consumed && a.1.started && b.1.started;
    if a.0.Got? {
      StartedHandIsForgotten(a.1, b.1, d);
    }
  }

  lemma StartedHandIsForgotten(a: State, b: State, d: Dialect)
    requires WfDialect(d) && a.started && b.started && a.fails == b.fails && a.consumed == b.consumed && a.at == b.at
    ensures ReadAll(a, d) == ReadAll(b, d)
  {
    HandIsForgotten(a, b, d);
  }

  /** The first field would be written bare and begins with the bytes of a byte order mark. */
  ghost predicate StartsWithMark(rows: seq<seq<bytes>>, d: Dialect) {
    rows != [] && rows[0] != [] && BOM <= rows[0][0] && !NeedsQuote(rows[0][0], d)
  }

  lemma MarkIsWritten(rows: seq<seq<bytes>>, end: bytes, d: Dialect)
    requires Sensible(d) && LineEnd(end) && AllText(rows, d, end).Text? && StartsWithMark(rows, d)
    ensures BOM <= AllText(rows, d, end).text
  {
    hide NeedsQuote, FieldsText, RecordText;
    var fs := rows[0];
    assert fs != [[]];
    BareFirstField(fs, d);
    assert fs[0] <= RecordText(fs, d).text;
  }

  /** Reading gives back exactly the records that were written if and only if each has a field and fits
      the limit, and the first field of all is not a bare one that begins with a byte order mark. */
  lemma RoundTrip(rows: seq<seq<bytes>>, end: bytes, d: Dialect)
    requires Sensible(d) && d.quote < 128 && LineEnd(end) && AllText(rows, d, end).Text?
    ensures var t := AllText(rows, d, end).text;
      ReadsAs(Open(t, |t|, false), rows, d) <==> Fit(rows, d) && !StartsWithMark(rows, d)
  {
    var t := AllText(rows, d, end).text;
    var st := Open(t, |t|, false);
    RowsReadFit(st, d);
    if Fit(rows, d) {
      if StartsWithMark(rows, d) {
        MarkIsWritten(rows, end, d);
      }
      if BOM <= t {
        BomFieldIsBare(rows, end, d);
        BomIsLost(rows, end, d);
      } else {
        RowsRead(st, rows, end, d);
      }
    }
  }
}
