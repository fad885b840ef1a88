/** What a record of a text is, told from its bytes alone: pieces between delimiters, bare or in quotes. */
module CsvFields {
  import opened Bytes
  import opened CsvSpec
  import opened CsvLimits
  import opened CsvPositions
  import opened CsvWriter

  /** A field as it stands in a text: its bytes, quotes included, which do not begin with a quote; or what stands in
      quotes, undoubled, and the bytes between the closing quote and the end of the field. */
  datatype Piece = Bare(text: bytes) | InQuotes(inside: bytes, after: bytes)
  {
    function Value(): bytes { if Bare? then text else inside + after }
    predicate Spoilt() { InQuotes? && after != [] }
  }

  /** No byte that ends a field. */
  predicate NoEnd(s: bytes, d: Dialect) {
    forall i :: 0 <= i < |s| ==> s[i] as int != d.delimiter && s[i] != CR && s[i] != LF
  }

  predicate Proper(p: Piece, d: Dialect) {
    match p
    case Bare(text) => NoEnd(text, d) && (d.quote >= 0 ==> Peek(text) != d.quote)
    case InQuotes(_, after) => 0 <= d.quote < 256 && NoEnd(after, d) && Peek(after) != d.quote
  }

  function Spelt(p: Piece, d: Dialect): bytes
    requires Proper(p, d)
  {
    match p
    case Bare(text) => text
    case InQuotes(inside, after) => InQuote(inside, d.quote as byte) + after
  }

  function InQuote(inside: bytes, q: byte): bytes { [q] + Doubled(inside, q) + [q] }

  predicate AllProper(ps: seq<Piece>, d: Dialect) { forall i :: 0 <= i < |ps| ==> Proper(ps[i], d) }

  /** The pieces with delimiters between them. */
  function SpeltAll(ps: seq<Piece>, d: Dialect): bytes
    requires WfDialect(d) && AllProper(ps, d)
  {
    if ps == [] then []
    else Spelt(ps[0], d) + if |ps| == 1 then [] else [d.delimiter as byte] + SpeltAll(ps[1..], d)
  }

  function Values(ps: seq<Piece>): seq<bytes> {
    seq(|ps|, i requires 0 <= i < |ps| => ps[i].Value())
  }

  ghost predicate SomeSpoilt(ps: seq<Piece>) { exists i :: 0 <= i < |ps| && ps[i].Spoilt() }

  /** Where a record ends: the end of the text, or a line break. */
  predicate AtEnd(tail: bytes) { tail == [] || tail[0] == CR || tail[0] == LF }

  function PastBreak(tail: bytes): bytes {
    if tail == [] then [] else if |tail| > 1 && tail[0] == CR && tail[1] == LF then tail[2..] else tail[1..]
  }

  /** `rest` begins with the pieces of a record, and `tail` follows. */
  ghost predicate Holds(rest: bytes, ps: seq<Piece>, tail: bytes, d: Dialect)
    requires WfDialect(d)
  {
    ps != [] && AllProper(ps, d) && rest == SpeltAll(ps, d) + tail && AtEnd(tail)
  }

  /** `rest` is pieces, and then a quote that is never closed. */
  ghost predicate NeverClosed(rest: bytes, ps: seq<Piece>, inside: bytes, d: Dialect)
    requires WfDialect(d)
  {
    && AllProper(ps, d) && 0 <= d.quote < 256
    && rest == (if ps == [] then [] else SpeltAll(ps, d) + [d.delimiter as byte])
               + [d.quote as byte] + Doubled(inside, d.quote as byte)
  }

  // ----- one field -----

  lemma {:induction false} UnquotedIs(c: Cursor, content: bytes, d: Dialect) returns (t: bytes)
    requires WfDialect(d)
    ensures var r := Unquoted(c, content, d);
      r.Done? ==> c.rest == t + r.at.rest && r.content == content + t && NoEnd(t, d)
    decreases |c.rest|
  {
    t := [];
    assert content + [] == content;
    if !EndsField(Peek(c.rest), d) && |content| < d.limit {
      var b, next := c.rest[0], Cursor(c.rest[1..], c.line);
      var more := UnquotedIs(next, content + [b], d);
      var r := Unquoted(next, content + [b], d);
      assert Unquoted(c, content, d) == r;
      hide Unquoted, NoEnd, EndsField;
      t := [b] + more;
      Chain(content, [b], more);
      assert c.rest == [b] + next.rest;
      Chain([b], more, r.at.rest);
      OneMoreNoEnd(b, more, d);
    }
  }

  lemma OneMoreNoEnd(b: byte, more: bytes, d: Dialect)
    ensures NoEnd([b] + more, d) <==> !EndsField(b as int, d) && NoEnd(more, d)
  {
    assert forall i :: 1 <= i < |[b] + more| ==> ([b] + more)[i] == more[i - 1];
    if NoEnd([b] + more, d) {
      assert ([b] + more)[0] == b;
      forall i | 0 <= i < |more| ensures !EndsField(more[i] as int, d) {
        assert ([b] + more)[i + 1] == more[i];
      }
    }
  }

  /** One round inside quotes: what it took is some bytes doubled. */
  lemma RoundIs(c: Cursor, content: bytes, d: Dialect) returns (some: bytes)
    requires Sensible(d) && 0 <= d.quote < 256
    ensures var once := QuotedOnce(c, content, d);
      once.On? ==> c.rest == Doubled(some, d.quote as byte) + once.at.rest && once.content == content + some
  {
    var once, q := QuotedOnce(c, content, d), d.quote as byte;
    some := [];
    if once.On? {
      var b := c.rest[0];
      assert c.rest == [b] + c.rest[1..];
      if b == q {
        some := [q];
        assert Doubled([q], q) == [q, q];
        assert c.rest == [q, q] + c.rest[1..][1..];
      } else if b == CR && Peek(c.rest[1..]) == LF as int {
        some := [CR, LF];
        assert [CR, LF][1..] == [LF] && Doubled([LF], q) == [LF] + Doubled([], q);
        assert Doubled([CR, LF], q) == [CR, LF];
        assert c.rest == [CR, LF] + c.rest[1..][1..];
      } else {
        some := [b];
        assert Doubled([b], q) == [b];
      }
    }
  }

  lemma RoundStops(c: Cursor, content: bytes, d: Dialect)
    requires Sensible(d) && 0 <= d.quote < 256
    ensures var once := QuotedOnce(c, content, d);
      once.Stop? && once.part.Done? ==>
        c.rest == [d.quote as byte] + once.part.at.rest && Peek(once.part.at.rest) != d.quote && once.part.content == content
    ensures var once := QuotedOnce(c, content, d);
      once.Stop? && once.part.Unclosed? ==> c.rest == once.part.at.rest == [] && once.part.content == content
  {
  }

  lemma Chain<T>(a: seq<T>, b: seq<T>, c: seq<T>)
    ensures a + b + c == a + (b + c)
  {
  }

  /** Inside quotes every quote is doubled, up to the one that closes, or to the end. */
  lemma {:induction false} QuotedIs(c: Cursor, content: bytes, d: Dialect) returns (inside: bytes)
    requires Sensible(d) && 0 <= d.quote < 256
    ensures var r, q := Quoted(c, content, d), d.quote as byte;
      && (r.Done? ==> c.rest == Doubled(inside, q) + [q] + r.at.rest && Peek(r.at.rest) != d.quote)
      && (r.Unclosed? ==> c.rest == Doubled(inside, q) && r.at.rest == [])
      && (!r.Over? ==> r.content == content + inside)
    decreases |c.rest|
  {
    var once, q := QuotedOnce(c, content, d), d.quote as byte;
    if once.On? {
      var some := RoundIs(c, content, d);
      hide QuotedOnce;
      var more := QuotedIs(once.at, once.content, d);
      inside := some + more;
      DoubledConcat(some, more, q);
      hide Doubled;
      var r := Quoted(once.at, once.content, d);
      Chain(content, some, more);
      if r.Done? {
        Chain(Doubled(some, q), Doubled(more, q), [q] + r.at.rest);
        Chain(Doubled(more, q), [q], r.at.rest);
        Chain(Doubled(inside, q), [q], r.at.rest);
      }
    } else {
      inside := [];
      RoundStops(c, content, d);
      hide QuotedOnce;
      assert content + [] == content && Doubled([], q) == [];
    }
  }

  /** Every field is a piece, and it is ambiguous exactly when bytes follow its closing quote. */
  lemma FieldIs(c: Cursor, content: bytes, d: Dialect) returns (p: Piece)
    requires Sensible(d)
    ensures var r := Field(c, content, d);
      && (r.Done? ==> Proper(p, d) && c.rest == Spelt(p, d) + r.at.rest && r.content == content + p.Value())
      && (r.Done? ==> (Ambiguous(c, content, d) <==> p.Spoilt()))
      && (r.Unclosed? ==> p.InQuotes? && NeverClosed(c.rest, [], p.inside, d) && r.at.rest == [])
  {
    if d.quote >= 0 && Peek(c.rest) == d.quote {
      p := QuotedFieldIs(c, content, d);
    } else {
      var t := UnquotedIs(c, content, d);
      hide Unquoted;
      p := Bare(t);
      if Field(c, content, d).Done? {
        assert t != [] ==> t[0] == c.rest[0];
      }
    }
  }

  lemma QuotedFieldIs(c: Cursor, content: bytes, d: Dialect) returns (p: Piece)
    requires Sensible(d) && d.quote >= 0 && Peek(c.rest) == d.quote
    ensures var r := Field(c, content, d);
      && (r.Done? ==> Proper(p, d) && c.rest == Spelt(p, d) + r.at.rest && r.content == content + p.Value())
      && (r.Done? ==> (Ambiguous(c, content, d) <==> p.Spoilt()))
      && (r.Unclosed? ==> p.InQuotes? && NeverClosed(c.rest, [], p.inside, d) && r.at.rest == [])
  {
    var r, q := Field(c, content, d), d.quote as byte;
    var inner := Cursor(c.rest[1..], c.line);
    var inside := QuotedIs(inner, content, d);
    var part := Quoted(inner, content, d);
    assert c.rest == [q] + inner.rest;
    p := InQuotes(inside, []);
    if part.Done? {
      var t := UnquotedIs(part.at, part.content, d);
      hide Quoted, Doubled, Unquoted;
      p := InQuotes(inside, t);
      if r.Done? {
        assert t != [] ==> t[0] == part.at.rest[0];
        assert t == [] ==> r.at.rest == part.at.rest;
        Regroup(c.rest, [q], Doubled(inside, q), part.at.rest, t, r.at.rest);
        assert content + inside + t == content + (inside + t);
        assert Ambiguous(c, content, d) == !EndsField(Peek(part.at.rest), d);
        assert NoEnd(t, d) && t != [] ==> !EndsField(t[0] as int, d);
      }
    } else {
      hide Quoted, Doubled, Unquoted;
      assert [] + [q] + Doubled(inside, q) == [q] + Doubled(inside, q);
    }
  }

  lemma Regroup(s: bytes, q: bytes, doubled: bytes, rest: bytes, t: bytes, tail: bytes)
    requires s == q + (doubled + q + rest) && rest == t + tail
    ensures s == (q + doubled + q + t) + tail
  {
  }

  // ----- a record -----

  function StartsOf(base: nat, fs: seq<bytes>): seq<nat>
    decreases |fs|
  {
    if fs == [] then [] else [base] + StartsOf(base + |fs[0]|, fs[1..])
  }

  /** The draft once `ps` have been read after it. */
  function With(draft: Draft, ps: seq<Piece>): Draft
    decreases |ps|
  {
    if ps == [] then draft else With(WithOne(draft, ps[0]), ps[1..])
  }

  function WithOne(draft: Draft, p: Piece): Draft {
    Draft(draft.content + p.Value(), draft.starts + [|draft.content|],
          if p.Spoilt() && draft.problem.NoProblem? then TextAfterQuote else draft.problem)
  }

  lemma {:induction false} WithMeans(draft: Draft, ps: seq<Piece>)
    ensures var w := With(draft, ps);
      && w.content == draft.content + Join(Values(ps))
      && w.starts == draft.starts + StartsOf(|draft.content|, Values(ps))
      && (w.problem.TextAfterQuote? <==> draft.problem.TextAfterQuote? || SomeSpoilt(ps))
    decreases |ps|
  {
    if ps == [] {
      assert Join([]) == [];
      assert draft.content + [] == draft.content && draft.starts + [] == draft.starts;
    } else {
      var v, first := ps[0].Value(), WithOne(draft, ps[0]);
      assert Values(ps)[1..] == Values(ps[1..]);
      WithMeans(first, ps[1..]);
      SpoiltOneMore(ps);
      Chain(draft.content, v, Join(Values(ps[1..])));
      Chain(draft.starts, [|draft.content|], StartsOf(|first.content|, Values(ps[1..])));
      assert first.content == draft.content + v && first.starts == draft.starts + [|draft.content|];
      assert With(draft, ps) == With(first, ps[1..]);
      assert Join(Values(ps)) == v + Join(Values(ps[1..]));
      assert StartsOf(|draft.content|, Values(ps)) == [|draft.content|] + StartsOf(|first.content|, Values(ps[1..]));
      assert first.problem.TextAfterQuote? <==> draft.problem.TextAfterQuote? || ps[0].Spoilt();
      hide *;
    }
  }

  lemma SpoiltOneMore(ps: seq<Piece>)
    requires ps != []
    ensures SomeSpoilt(ps) <==> ps[0].Spoilt() || SomeSpoilt(ps[1..])
  {
    if SomeSpoilt(ps[1..]) {
      var i :| 0 <= i < |ps[1..]| && ps[1..][i].Spoilt();
      assert ps[i + 1].Spoilt();
    }
    if i :| 0 <= i < |ps| && ps[i].Spoilt() {
      assert i > 0 ==> ps[1..][i - 1].Spoilt();
    }
  }

  lemma SpeltOneMore(p: Piece, ps: seq<Piece>, d: Dialect)
    requires WfDialect(d) && Proper(p, d) && AllProper(ps, d)
    ensures AllProper([p] + ps, d)
    ensures ps != [] ==> SpeltAll([p] + ps, d) == Spelt(p, d) + [d.delimiter as byte] + SpeltAll(ps, d)
    ensures ps == [] ==> SpeltAll([p] + ps, d) == Spelt(p, d)
  {
    hide Proper, Spelt;
    assert ([p] + ps)[1..] == ps;
    assert Spelt(p, d) + [] == Spelt(p, d);
  }

  lemma HoldsOneMore(rest: bytes, p: Piece, rest': bytes, ps: seq<Piece>, tail: bytes, d: Dialect)
    requires WfDialect(d) && Proper(p, d) && rest == Spelt(p, d) + [d.delimiter as byte] + rest'
    requires Holds(rest', ps, tail, d)
    ensures Holds(rest, [p] + ps, tail, d)
  {
    hide Proper, Spelt;
    SpeltOneMore(p, ps, d);
    hide SpeltAll;
    assert rest == (Spelt(p, d) + [d.delimiter as byte] + SpeltAll(ps, d)) + tail;
  }

  lemma NeverClosedOneMore(rest: bytes, p: Piece, rest': bytes, ps: seq<Piece>, inside: bytes, d: Dialect)
    requires WfDialect(d) && Proper(p, d) && rest == Spelt(p, d) + [d.delimiter as byte] + rest'
    requires NeverClosed(rest', ps, inside, d)
    ensures NeverClosed(rest, [p] + ps, inside, d)
  {
    hide Proper, Spelt, Doubled;
    SpeltOneMore(p, ps, d);
    hide SpeltAll;
    var comma, open := [d.delimiter as byte], [d.quote as byte] + Doubled(inside, d.quote as byte);
    if ps == [] {
      assert rest == (Spelt(p, d) + comma) + [d.quote as byte] + Doubled(inside, d.quote as byte);
    } else {
      assert rest == (Spelt(p, d) + comma + SpeltAll(ps, d) + comma) + [d.quote as byte] + Doubled(inside, d.quote as byte);
    }
  }

  /** The quote that is never closed stands on `line`, when the text ends on `last`. */
  predicate OpenedOn(line: nat, inside: bytes, d: Dialect, last: nat) {
    0 <= d.quote < 256 && line + Breaks([d.quote as byte] + Doubled(inside, d.quote as byte)) == last
  }

  lemma OneFieldKeepsLines(c: Cursor, draft: Draft, d: Dialect, fails: bool, line: nat)
    requires Sensible(d)
    ensures var once := OneField(c, draft, d, fails, line); once.NextField? ==> Lines(once.at) == Lines(c)
  {
    FieldKeepsLines(c, draft.content, d);
    hide Field, Ambiguous;
  }

  lemma OpenedHere(c: Cursor, inside: bytes, d: Dialect)
    requires WfDialect(d) && NeverClosed(c.rest, [], inside, d)
    ensures OpenedOn(c.line, inside, d, Lines(c))
  {
    hide Breaks, Doubled;
    var q := d.quote as byte;
    assert c.rest == [] + [q] + Doubled(inside, q) == [q] + Doubled(inside, q);
  }

  /** What one field tells of the record it stands in. */
  lemma OneFieldIs(c: Cursor, draft: Draft, d: Dialect, fails: bool, line: nat) returns (p: Piece, tail: bytes)
    requires Sensible(d)
    ensures match OneField(c, draft, d, fails, line)
      case NextField(at, draft') =>
        Proper(p, d) && c.rest == Spelt(p, d) + [d.delimiter as byte] + at.rest && draft' == WithOne(draft, p)
      case RecordEnds(Complete(at, draft')) =>
        && Holds(c.rest, [p], tail, d) && at.rest == PastBreak(tail) && draft' == WithOne(draft, p)
        && (fails ==> tail != [])
      case RecordEnds(Stopped(at, error)) =>
        && (error.UnclosedQuote? ==> p.InQuotes? && NeverClosed(c.rest, [], p.inside, d) && error.line == c.line && !fails)
        && (error.ReadFailed? ==> fails && at.rest == [])
  {
    p := FieldIs(c, draft.content, d);
    var r := Field(c, draft.content, d);
    hide Field, Ambiguous, Spelt, NeverClosed, Proper, AllProper, SpeltAll, Piece.Value, Piece.Spoilt;
    tail := [];
    if r.Done? {
      tail := r.at.rest;
      if Peek(tail) == d.delimiter {
        assert tail == [d.delimiter as byte] + tail[1..];
        Chain(Spelt(p, d), [d.delimiter as byte], tail[1..]);
      }
      SpeltOneMore(p, [], d);
      assert [p] + [] == [p];
    }
  }

  /** Every record, whatever its text: it is pieces between delimiters, up to a break or the end. A quote that is
      reported as never closed is not closed. */
  lemma {:induction false} FieldsAre(c: Cursor, draft: Draft, d: Dialect, fails: bool, line: nat)
    returns (ps: seq<Piece>, tail: bytes)
    requires Sensible(d)
    ensures match Fields(c, draft, d, fails, line)
      case Complete(at, draft') =>
        && Holds(c.rest, ps, tail, d) && at.rest == PastBreak(tail) && draft' == With(draft, ps) && (fails ==> tail != [])
      case Stopped(at, error) =>
        && (error.UnclosedQuote? ==>
              NeverClosed(c.rest, ps, tail, d) && OpenedOn(error.line, tail, d, Lines(c)) && !fails)
        && (error.ReadFailed? ==> fails && at.rest == [])
    decreases |c.rest|
  {
    var p, t := OneFieldIs(c, draft, d, fails, line);
    var once := OneField(c, draft, d, fails, line);
    OneFieldKeepsLines(c, draft, d, fails, line);
    hide OneField, Holds, NeverClosed, Spelt, Proper, PastBreak, Lines, OpenedOn;
    if once.NextField? {
      var more, tail' := FieldsAre(once.at, once.draft, d, fails, line);
      ps, tail := [p] + more, tail';
      assert ps[1..] == more;
      var e := Fields(once.at, once.draft, d, fails, line);
      if e.Complete? {
        HoldsOneMore(c.rest, p, once.at.rest, more, tail, d);
      } else if e.error.UnclosedQuote? {
        NeverClosedOneMore(c.rest, p, once.at.rest, more, tail, d);
      }
    } else if once.ended.Complete? {
      ps, tail := [p], t;
      assert With(draft, ps) == With(WithOne(draft, p), []) by {
        assert ps[1..] == [];
      }
    } else {
      ps, tail := [], if p.InQuotes? then p.inside else [];
      if once.ended.error.UnclosedQuote? {
        OpenedHere(c, p.inside, d);
      }
    }
  }

  // ----- and every such text is read so -----

  lemma {:induction false} UnquotedReads(t: bytes, tail: bytes, line: nat, content: bytes, d: Dialect)
    requires NoEnd(t, d) && EndsField(Peek(tail), d) && |content| + |t| <= d.limit
    ensures Unquoted(Cursor(t + tail, line), content, d) == Done(Cursor(tail, line), content + t)
    decreases |t|
  {
    if t == [] {
      assert t + tail == tail && content + t == content;
    } else {
      assert (t + tail)[1..] == t[1..] + tail;
      assert t == [t[0]] + t[1..];
      OneMoreNoEnd(t[0], t[1..], d);
      UnquotedReads(t[1..], tail, line, content + [t[0]], d);
      assert content + [t[0]] + t[1..] == content + t;
    }
  }

  lemma QuotedReadsOne(f: bytes, tail: bytes, line: nat, content: bytes, d: Dialect) returns (k: nat)
    requires Sensible(d) && d.quote >= 0 && f != [] && |content| + |f| <= d.limit
    ensures 1 <= k <= |f|
    ensures var q := d.quote as byte;
      var once := QuotedOnce(Cursor(Doubled(f, q) + [q] + tail, line), content, d);
      && once.On? && once.content == content + f[..k]
      && once.at.rest == Doubled(f[k..], q) + [q] + tail
  {
    var q := d.quote as byte;
    var s := Doubled(f, q) + [q] + tail;
    if f[0] == q {
      k := 1;
      assert s == [q, q] + (Doubled(f[1..], q) + [q] + tail);
      assert s[1..][1..] == Doubled(f[1..], q) + [q] + tail;
    } else {
      assert s == [f[0]] + (Doubled(f[1..], q) + [q] + tail);
      assert s[1..] == Doubled(f[1..], q) + [q] + tail;
      if f[0] == CR && |f| > 1 && f[1] == LF {
        k := 2;
        assert f[1..][1..] == f[2..];
        assert Doubled(f[1..], q) == [LF] + Doubled(f[2..], q);
        assert s[1..][1..] == Doubled(f[2..], q) + [q] + tail;
        assert f[..2] == [CR, LF];
      } else {
        k := 1;
        assert |f| > 1 ==> Doubled(f[1..], q)[0] == f[1];
        assert f[..1] == [f[0]];
      }
    }
  }

  lemma {:induction false} QuotedReads(f: bytes, tail: bytes, line: nat, content: bytes, d: Dialect)
    requires Sensible(d) && d.quote >= 0 && Peek(tail) != d.quote && |content| + |f| <= d.limit
    ensures var q := d.quote as byte;
      var r := Quoted(Cursor(Doubled(f, q) + [q] + tail, line), content, d);
      r.Done? && r.at.rest == tail && r.content == content + f
    decreases |f|
  {
    var q := d.quote as byte;
    if f == [] {
      assert Doubled(f, q) + [q] + tail == [q] + tail;
      assert ([q] + tail)[1..] == tail;
    } else {
      var k := QuotedReadsOne(f, tail, line, content, d);
      var once := QuotedOnce(Cursor(Doubled(f, q) + [q] + tail, line), content, d);
      hide QuotedOnce, Doubled;
      QuotedReads(f[k..], tail, once.at.line, content + f[..k], d);
      assert content + f[..k] + f[k..] == content + f;
    }
  }

  lemma PieceReads(p: Piece, tail: bytes, line: nat, content: bytes, d: Dialect)
    requires Sensible(d) && Proper(p, d) && EndsField(Peek(tail), d) && |content| + |p.Value()| <= d.limit
    ensures var c := Cursor(Spelt(p, d) + tail, line);
      var r := Field(c, content, d);
      && r.Done? && r.at.rest == tail && r.content == content + p.Value()
      && (Ambiguous(c, content, d) <==> p.Spoilt())
  {
    if p.Bare? {
      assert Peek(p.text + tail) == if p.text == [] then Peek(tail) else p.text[0] as int;
      UnquotedReads(p.text, tail, line, content, d);
    } else {
      var q, rest := d.quote as byte, p.after + tail;
      Regroup(Spelt(p, d) + tail, [q], Doubled(p.inside, q), rest, p.after, tail);
      var c := Cursor(Spelt(p, d) + tail, line);
      assert c.rest == [q] + (Doubled(p.inside, q) + [q] + rest);
      assert c.rest[1..] == Doubled(p.inside, q) + [q] + rest;
      assert Peek(rest) == if p.after == [] then Peek(tail) else p.after[0] as int;
      QuotedReads(p.inside, rest, line, content, d);
      var r := Quoted(Cursor(c.rest[1..], line), content, d);
      hide Quoted, Doubled, Unquoted;
      UnquotedReads(p.after, tail, r.at.line, r.content, d);
      Chain(content, p.inside, p.after);
    }
  }

  lemma OneFieldReads(p: Piece, tail: bytes, line: nat, draft: Draft, d: Dialect, fails: bool, recLine: nat)
    requires Sensible(d) && Proper(p, d) && EndsField(Peek(tail), d) && |draft.content| + |p.Value()| <= d.limit
    requires fails ==> tail != []
    ensures var once := OneField(Cursor(Spelt(p, d) + tail, line), draft, d, fails, recLine);
      && (Peek(tail) == d.delimiter ==> once.NextField? && once.at.rest == tail[1..] && once.draft == WithOne(draft, p))
      && (Peek(tail) != d.delimiter ==>
            && once.RecordEnds? && once.ended.Complete?
            && once.ended.at.rest == PastBreak(tail) && once.ended.draft == WithOne(draft, p))
  {
    PieceReads(p, tail, line, draft.content, d);
    var r := Field(Cursor(Spelt(p, d) + tail, line), draft.content, d);
    hide Field, Ambiguous, Spelt, Proper;
    assert r.at == Cursor(tail, r.at.line);
  }

  /** Pieces that fit are read as they are, whatever the piece before. */
  lemma {:induction false} FieldsRead(ps: seq<Piece>, tail: bytes, line: nat, draft: Draft, d: Dialect, fails: bool,
                                      recLine: nat)
    requires Sensible(d) && ps != [] && AllProper(ps, d) && AtEnd(tail) && (fails ==> tail != [])
    requires |draft.content| + |Join(Values(ps))| <= d.limit
    ensures var r := Fields(Cursor(SpeltAll(ps, d) + tail, line), draft, d, fails, recLine);
      r.Complete? && r.at.rest == PastBreak(tail) && r.draft == With(draft, ps)
    decreases |ps|
  {
    var p, more := ps[0], ps[1..];
    FieldsFit(ps);
    if more == [] {
      assert ps == [p] && Proper(p, d);
      SpeltOneMore(p, [], d);
      OneFieldReads(p, tail, line, draft, d, fails, recLine);
    } else {
      var tail' := AfterFirst(ps, tail, d);
      hide Proper, SpeltAll, Spelt, Join, Piece.Value, PastBreak, AtEnd;
      OneFieldReads(p, tail', line, draft, d, fails, recLine);
      var once := OneField(Cursor(SpeltAll(ps, d) + tail, line), draft, d, fails, recLine);
      hide OneField;
      FieldsRead(more, tail, once.at.line, once.draft, d, fails, recLine);
    }
  }

  lemma AfterFirst(ps: seq<Piece>, tail: bytes, d: Dialect) returns (tail': bytes)
    requires WfDialect(d) && |ps| > 1 && AllProper(ps, d)
    ensures Proper(ps[0], d) && AllProper(ps[1..], d)
    ensures SpeltAll(ps, d) + tail == Spelt(ps[0], d) + tail'
    ensures Peek(tail') == d.delimiter && tail'[1..] == SpeltAll(ps[1..], d) + tail
  {
    var p, more := ps[0], ps[1..];
    assert ps == [p] + more && Proper(p, d) && AllProper(more, d);
    SpeltOneMore(p, more, d);
    hide Proper, AllProper, SpeltAll, Spelt;
    tail' := [d.delimiter as byte] + (SpeltAll(more, d) + tail);
    InFour(Spelt(p, d), d.delimiter as byte, SpeltAll(more, d), tail);
  }

  lemma InFour(a: bytes, b: byte, c: bytes, tail: bytes)
    ensures (a + [b] + c) + tail == a + ([b] + (c + tail)) && ([b] + (c + tail))[1..] == c + tail
  {
  }

  lemma FieldsFit(ps: seq<Piece>)
    requires ps != []
    ensures |Join(Values(ps))| == |ps[0].Value()| + |Join(Values(ps[1..]))|
  {
    assert Values(ps)[1..] == Values(ps[1..]);
  }

  // ----- one call -----

  /** The record's fields are those of the pieces, and it is marked exactly when bytes follow a closing quote. */
  ghost predicate Tells(r: Record, ps: seq<Piece>) {
    FieldsOf(r) == Values(ps) && (r.problem.TextAfterQuote? <==> SomeSpoilt(ps))
  }

  lemma {:induction false} StartsOfField(base: nat, fs: seq<bytes>, i: nat)
    requires i < |fs|
    ensures var starts := StartsOf(base, fs);
      && |starts| == |fs| && base <= starts[i]
      && starts[i] + |fs[i]| == (if i + 1 < |fs| then starts[i + 1] else base + |Join(fs)|)
      && starts[i] + |fs[i]| <= base + |Join(fs)|
      && Join(fs)[starts[i] - base..starts[i] - base + |fs[i]|] == fs[i]
    decreases |fs|
  {
    if |fs| > 1 {
      StartsOfField(base + |fs[0]|, fs[1..], if i > 0 then i - 1 else 0);
    } else {
      assert fs[1..] == [];
    }
    if i > 0 {
      var k := StartsOf(base, fs)[i] - base;
      assert Join(fs)[k..k + |fs[i]|] == Join(fs[1..])[k - |fs[0]|..k - |fs[0]| + |fs[i]|];
    }
  }

  lemma FieldsOfJoined(r: Record, fs: seq<bytes>)
    requires fs != [] && r.content == Join(fs) && r.starts == StartsOf(0, fs)
    ensures FieldsOf(r) == fs
  {
    hide StartsOf, Join;
    StartsOfField(0, fs, 0);
    forall i | 0 <= i < |fs|
      ensures FieldAt(r, i) == fs[i]
    {
      StartsOfField(0, fs, i);
    }
  }

  lemma DraftTells(draft: Draft, ps: seq<Piece>, r: Record)
    requires ps != [] && draft == With(Draft([], [], NoProblem), ps)
    requires r.content == draft.content && r.starts == draft.starts && r.problem == draft.problem
    ensures Tells(r, ps)
  {
    WithMeans(Draft([], [], NoProblem), ps);
    hide Join, StartsOf, With, SomeSpoilt;
    assert [] + Join(Values(ps)) == Join(Values(ps)) && [] + StartsOf(0, Values(ps)) == StartsOf(0, Values(ps));
    FieldsOfJoined(r, Values(ps));
  }

  predicate OnlyBreaks(s: bytes) { forall i :: 0 <= i < |s| ==> s[i] == CR || s[i] == LF }

  lemma BreakIsBytes(c: Cursor) returns (first: bytes)
    requires IsBreak(Peek(c.rest))
    ensures OnlyBreaks(first) && c.rest == first + TakeBreak(c).rest
  {
    var rest := TakeBreak(c).rest;
    first := c.rest[..|c.rest| - |rest|];
  }

  lemma BreaksJoin(a: bytes, b: bytes)
    requires OnlyBreaks(a) && OnlyBreaks(b)
    ensures OnlyBreaks(a + b)
  {
  }

  /** Exactly the line breaks in front are skipped. */
  lemma {:induction false} BlankLinesAreBreaks(c: Cursor) returns (breaks: bytes)
    ensures OnlyBreaks(breaks) && c.rest == breaks + SkipBlank(c).rest
    decreases |c.rest|
  {
    breaks := [];
    if IsBreak(Peek(c.rest)) {
      var next := TakeBreak(c);
      var first := BreakIsBytes(c);
      var more := BlankLinesAreBreaks(next);
      assert SkipBlank(c) == SkipBlank(next);
      hide *;
      breaks := first + more;
      BreaksJoin(first, more);
      Chain(first, more, SkipBlank(next).rest);
    } else {
      assert OnlyBreaks([]);
      hide *;
      assert [] + c.rest == c.rest;
    }
  }

  lemma NoFurther(s: bytes, a: bytes, x: bytes, b: bytes)
    requires s == a + x && b <= s && OnlyBreaks(b) && !IsBreak(Peek(x))
    ensures |b| <= |a|
  {
    assert x != [] ==> s[|a|] == x[0];
    assert forall k :: 0 <= k < |b| ==> s[k] == b[k];
  }

  lemma FirstNonBreak(a: bytes, x: bytes, b: bytes, y: bytes)
    requires a + x == b + y && OnlyBreaks(a) && OnlyBreaks(b) && !IsBreak(Peek(x)) && !IsBreak(Peek(y))
    ensures x == y
  {
    NoFurther(a + x, a, x, b);
    NoFurther(b + y, b, y, a);
    assert (a + x)[|a|..] == x && (b + y)[|b|..] == y;
  }

  /** Whatever the text: a record that is read is the pieces that its bytes spell, after line breaks only, and the
      reader stops after the break that ends it; and a quote that is reported as never closed is not closed. */
  lemma NextIsItsPieces(st: State, d: Dialect) returns (breaks: bytes, rest: bytes, ps: seq<Piece>, tail: bytes)
    requires Sensible(d)
    ensures var (o, st') := Next(st, d);
      && SkipBom(st).rest == breaks + rest && OnlyBreaks(breaks)
      && (o.Got? ==> Holds(rest, ps, tail, d) && Tells(o.record, ps) && st'.at.rest == PastBreak(tail)
                     && (st.fails ==> tail != []))
      && (o.Failed? && o.error.UnclosedQuote? ==>
            NeverClosed(rest, ps, tail, d) && OpenedOn(o.error.line, tail, d, Lines(st.at)) && !st.fails)
      && (o.Failed? && o.error.ReadFailed? ==> st.fails && st'.at.rest == [])
      && (o.EndOfInput? ==> rest == [] && !st.fails)
  {
    var c := SkipBlank(SkipBom(st));
    rest := c.rest;
    breaks := BlankLinesAreBreaks(SkipBom(st));
    ps, tail := FieldsAre(c, Draft([], [], NoProblem), d, st.fails, c.line);
    SkipBomKeepsLines(st);
    SkipBlankKeepsLines(SkipBom(st));
    var o := Next(st, d).0;
    hide Fields, SkipBlank, SkipBom, NeverClosed, Proper, SpeltAll, PastBreak, Lines, OpenedOn;
    if o.Got? {
      DraftTells(Fields(c, Draft([], [], NoProblem), d, st.fails, c.line).draft, ps, o.record);
    }
  }

  /** And whatever pieces a text spells, after line breaks only, they are the next record: if they fit, and reading
      does not break off there. */
  lemma PiecesAreNext(st: State, breaks: bytes, rest: bytes, ps: seq<Piece>, tail: bytes, d: Dialect)
    requires Sensible(d) && OnlyBreaks(breaks) && SkipBom(st).rest == breaks + rest
    requires Holds(rest, ps, tail, d) && rest != [] && !IsBreak(Peek(rest))
    requires |Join(Values(ps))| <= d.limit && (st.fails ==> tail != [])
    ensures var (o, st') := Next(st, d);
      o.Got? && Tells(o.record, ps) && st'.at.rest == PastBreak(tail)
  {
    var c, draft := SkipBlank(SkipBom(st)), Draft([], [], NoProblem);
    var breaks' := BlankLinesAreBreaks(SkipBom(st));
    FirstNonBreak(breaks, rest, breaks', c.rest);
    FieldsRead(ps, tail, c.line, draft, d, st.fails, c.line);
    var o := Next(st, d).0;
    hide Fields, SkipBlank, SkipBom, Proper, SpeltAll;
    DraftTells(With(draft, ps), ps, o.record);
  }
}
