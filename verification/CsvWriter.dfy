/** Writing records as `csv.line` and `csv.write` do: src/csv_reader.c decides when a field needs quoting,
    src/modules/csv.c writes it. */
module CsvWriter {
  import opened Bytes
  import opened CsvSpec

  datatype Written = Text(text: bytes) | CannotWrite

  /** A byte that an unquoted field cannot hold. */
  predicate Special(b: byte, d: Dialect) {
    b as int == d.delimiter || b == CR || b == LF || (d.quote >= 0 && b as int == d.quote)
  }

  ghost predicate NeedsQuote(f: bytes, d: Dialect) {
    exists i :: 0 <= i < |f| && Special(f[i], d)
  }

  /** `gb_csv_needs_quote`. */
  method FindSpecial(f: bytes, d: Dialect) returns (needs: bool)
    ensures needs <==> NeedsQuote(f, d)
  {
    for i := 0 to |f|
      invariant forall k :: 0 <= k < i ==> !Special(f[k], d)
    {
      if f[i] as int == d.delimiter || f[i] == CR || f[i] == LF || (d.quote >= 0 && f[i] as int == d.quote) {
        return true;
      }
    }
    return false;
  }

  /** Every quote twice. */
  function Doubled(f: bytes, q: byte): bytes {
    if f == [] then []
    else (if f[0] == q then [q, q] else [f[0]]) + Doubled(f[1..], q)
  }

  lemma {:induction false} DoubledConcat(a: bytes, b: bytes, q: byte)
    ensures Doubled(a + b, q) == Doubled(a, q) + Doubled(b, q)
    decreases |a|
  {
    if a == [] {
      assert a + b == b;
    } else {
      assert (a + b)[1..] == a[1..] + b;
      DoubledConcat(a[1..], b, q);
    }
  }

  lemma {:induction false} DoubledPlain(a: bytes, q: byte)
    requires q !in a
    ensures Doubled(a, q) == a
  {
    if a != [] {
      DoubledPlain(a[1..], q);
    }
  }

  lemma DoubledRun(f: bytes, from: nat, i: nat, q: byte)
    requires from <= i < |f| && q !in f[from..i] && f[i] == q
    ensures Doubled(f[..i + 1], q) == Doubled(f[..from], q) + f[from..i + 1] + [q]
  {
    var run := f[from..i];
    DoubledPlain(run, q);
    DoubledConcat(run, [q], q);
    assert Doubled([q], q) == [q, q];
    assert f[from..i + 1] == run + [q];
    assert f[..i + 1] == f[..from] + f[from..i + 1];
    hide Doubled;
    DoubledConcat(f[..from], f[from..i + 1], q);
  }

  lemma DoubledTail(f: bytes, from: nat, q: byte)
    requires from <= |f| && q !in f[from..]
    ensures Doubled(f, q) == Doubled(f[..from], q) + f[from..]
  {
    DoubledPlain(f[from..], q);
    DoubledConcat(f[..from], f[from..], q);
    assert f[..from] + f[from..] == f;
  }

  /** The copying loop of `csv_put_field`: runs up to and including each quote, then the quote again. */
  method PutQuoted(f: bytes, q: byte) returns (out: bytes)
    ensures out == [q] + Doubled(f, q) + [q]
  {
    out := [q];
    var from := 0;
    assert Doubled(f[..0], q) == [];
    hide Doubled;
    for i := 0 to |f|
      invariant 0 <= from <= i
      invariant q !in f[from..i]
      invariant out == [q] + Doubled(f[..from], q)
    {
      if f[i] == q {
        DoubledRun(f, from, i, q);
        out := out + f[from..i + 1] + [q];
        from := i + 1;
      } else {
        assert f[from..i + 1] == f[from..i] + [f[i]];
      }
    }
    DoubledTail(f, from, q);
    out := out + f[from..] + [q];
  }

  /** What a field is written as: quoted only when it needs to be. */
  ghost function FieldText(f: bytes, d: Dialect): Written {
    if !NeedsQuote(f, d) then Text(f)
    else if d.quote < 0 || d.quote > 255 then CannotWrite
    else Text([d.quote as byte] + Doubled(f, d.quote as byte) + [d.quote as byte])
  }

  /** `csv_put_field` on a text value. */
  method PutField(f: bytes, d: Dialect) returns (w: Written)
    requires WfDialect(d)
    ensures w == FieldText(f, d)
  {
    var needs := FindSpecial(f, d);
    if !needs {
      return Text(f);
    }
    if d.quote < 0 {
      return CannotWrite;
    }
    var out := PutQuoted(f, d.quote as byte);
    return Text(out);
  }

  /** Fields joined by the delimiter. */
  ghost function FieldsText(fs: seq<bytes>, d: Dialect): Written
    requires WfDialect(d)
  {
    if fs == [] then Text([])
    else
      match FieldText(fs[0], d)
      case CannotWrite => CannotWrite
      case Text(first) =>
        if |fs| == 1 then Text(first)
        else
          match FieldsText(fs[1..], d)
          case CannotWrite => CannotWrite
          case Text(more) => Text(first + [d.delimiter as byte] + more)
  }

  /** `csv_put_record`: a record of one empty field is written as two quotes, since unquoted it would be
      a blank line. */
  ghost function RecordText(fs: seq<bytes>, d: Dialect): Written
    requires WfDialect(d)
  {
    match FieldsText(fs, d)
    case CannotWrite => CannotWrite
    case Text(text) =>
      if text == [] && |fs| == 1 then
        if d.quote < 0 then CannotWrite else Text([d.quote as byte, d.quote as byte])
      else Text(text)
  }

  /** What ends a record: LF, or CRLF. */
  predicate LineEnd(e: bytes) {
    e == [LF] || e == [CR, LF]
  }

  /** `csv.line`, once for each record. */
  ghost function AllText(rows: seq<seq<bytes>>, d: Dialect, end: bytes): Written
    requires WfDialect(d)
  {
    if rows == [] then Text([])
    else
      match (RecordText(rows[0], d), AllText(rows[1..], d, end))
      case (Text(first), Text(more)) => Text(first + end + more)
      case _ => CannotWrite
  }

  /** Writing fails exactly when there is no quoting and a field would need it, or a record is one
      empty field. */
  lemma {:induction false} WhenItCannotBeWritten(fs: seq<bytes>, d: Dialect)
    requires WfDialect(d)
    ensures RecordText(fs, d) == CannotWrite <==>
      d.quote < 0 && (fs == [[]] || exists i :: 0 <= i < |fs| && NeedsQuote(fs[i], d))
  {
    FieldsCannot(fs, d);
    if |fs| == 1 && fs[0] == [] {
      assert fs == [[]];
    }
    if |fs| == 1 && FieldText(fs[0], d) == Text([]) {
      assert !NeedsQuote(fs[0], d);
      assert fs[0] == [];
    }
  }

  lemma {:induction false} FieldsCannot(fs: seq<bytes>, d: Dialect)
    requires WfDialect(d)
    ensures FieldsText(fs, d) == CannotWrite <==> d.quote < 0 && exists i :: 0 <= i < |fs| && NeedsQuote(fs[i], d)
    decreases |fs|
  {
    hide NeedsQuote;
    if |fs| > 1 {
      FieldsCannot(fs[1..], d);
      if d.quote < 0 && exists i :: 0 <= i < |fs| && NeedsQuote(fs[i], d) {
        var i :| 0 <= i < |fs| && NeedsQuote(fs[i], d);
        if i > 0 {
          assert NeedsQuote(fs[1..][i - 1], d);
        }
      }
      if exists i :: 0 <= i < |fs[1..]| && NeedsQuote(fs[1..][i], d) {
        var i :| 0 <= i < |fs[1..]| && NeedsQuote(fs[1..][i], d);
        assert NeedsQuote(fs[i + 1], d);
      }
    }
  }

  /** `csv_put_record_fields` and `csv_put_record`, with the loop they have. */
  method PutRecord(fs: seq<bytes>, d: Dialect) returns (w: Written)
    requires WfDialect(d)
    ensures w == RecordText(fs, d)
  {
    var out: bytes := [];
    assert fs[0..] == fs;
    for i := 0 to |fs|
      invariant Joined(out, i, FieldsText(fs[i..], d), |fs[i..]|, d) == FieldsText(fs, d)
    {
      if i > 0 {
        out := out + [d.delimiter as byte];
      }
      var f := PutField(fs[i], d);
      assert fs[i..][0] == fs[i] && fs[i..][1..] == fs[i + 1..];
      if f == CannotWrite {
        return CannotWrite;
      }
      out := out + f.text;
    }
    assert out + [] == out;
    if out == [] && |fs| == 1 {
      if d.quote < 0 {
        return CannotWrite;
      }
      return Text([d.quote as byte, d.quote as byte]);
    }
    return Text(out);
  }

  /** What is written already, then the rest. */
  ghost function Joined(out: bytes, done: nat, rest: Written, left: nat, d: Dialect): Written
    requires WfDialect(d)
  {
    match rest
    case CannotWrite => CannotWrite
    case Text(t) => Text(out + (if done > 0 && left > 0 then [d.delimiter as byte] else []) + t)
  }
}
