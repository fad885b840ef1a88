/** What a record holds, the exact limit on it, and that it does not matter how the file was cut into refills. */
module CsvLimits {
  import opened Bytes
  import opened CsvSpec

  // ----- the limit -----

  /** The same dialect with a limit that `room` more bytes of content cannot reach. */
  function Unlimited(d: Dialect, room: nat): Dialect {
    d.(limit := room)
  }

  predicate Fits(r: Part, limit: nat) {
    !r.Over? && |r.content| <= limit
  }

  lemma {:induction false} QuotedLimit(c: Cursor, content: bytes, d: Dialect, room: nat)
    requires |content| + |c.rest| <= room
    ensures var u := Quoted(c, content, Unlimited(d, room));
      && !u.Over? && |content| <= |u.content| && |u.content| + |u.at.rest| <= |content| + |c.rest|
      && (|content| <= d.limit ==>
            if Fits(u, d.limit) then Quoted(c, content, d) == u else Quoted(c, content, d).Over?)
    decreases |c.rest|
  {
    var big := Unlimited(d, room);
    var once := QuotedOnce(c, content, big);
    OnceLimit(c, content, d, room);
    hide QuotedOnce;
    if once.On? {
      QuotedLimit(once.at, once.content, d, room);
    }
  }

  lemma OnceLimit(c: Cursor, content: bytes, d: Dialect, room: nat)
    requires |content| + |c.rest| <= room
    ensures var u := QuotedOnce(c, content, Unlimited(d, room));
      match u
      case On(at, content') =>
        && |content| <= |content'| && |content'| + |at.rest| <= |content| + |c.rest|
        && (if |content'| <= d.limit then QuotedOnce(c, content, d) == u
            else QuotedOnce(c, content, d).Stop? && QuotedOnce(c, content, d).part.Over?)
      case Stop(part) =>
        && !part.Over? && part.content == content && |part.at.rest| <= |c.rest|
        && QuotedOnce(c, content, d) == u
  {
  }

  lemma {:induction false} UnquotedLimit(c: Cursor, content: bytes, d: Dialect, room: nat)
    requires |content| + |c.rest| <= room
    ensures var u := Unquoted(c, content, Unlimited(d, room));
      && u.Done? && |content| <= |u.content| && |u.content| + |u.at.rest| <= |content| + |c.rest|
      && (|content| <= d.limit ==>
            if Fits(u, d.limit) then Unquoted(c, content, d) == u else Unquoted(c, content, d).Over?)
    decreases |c.rest|
  {
    if !EndsField(Peek(c.rest), d) {
      UnquotedLimit(Cursor(c.rest[1..], c.line), content + [c.rest[0]], d, room);
    }
  }

  /** One field: with the limit it reads as without, unless its content passes the limit, when it is
      refused; even if its quote never closes. */
  lemma FieldLimit(c: Cursor, content: bytes, d: Dialect, room: nat)
    requires |content| + |c.rest| <= room && |content| <= d.limit
    ensures var u := Field(c, content, Unlimited(d, room));
      && !u.Over? && |content| <= |u.content| && |u.content| + |u.at.rest| <= |content| + |c.rest|
      && if Fits(u, d.limit) then Field(c, content, d) == u else Field(c, content, d).Over?
  {
    if d.quote >= 0 && Peek(c.rest) == d.quote {
      var inside := Cursor(c.rest[1..], c.line);
      QuotedLimit(inside, content, d, room);
      var q := Quoted(inside, content, Unlimited(d, room));
      hide Quoted, Unquoted;
      if q.Done? {
        UnquotedLimit(q.at, q.content, d, room);
      }
    } else {
      UnquotedLimit(c, content, d, room);
    }
  }

  lemma AmbiguousLimit(c: Cursor, content: bytes, d: Dialect, room: nat)
    requires |content| + |c.rest| <= room && |content| <= d.limit
    requires Field(c, content, d).Done?
    ensures Ambiguous(c, content, d) == Ambiguous(c, content, Unlimited(d, room))
  {
    if d.quote >= 0 && Peek(c.rest) == d.quote {
      QuotedLimit(Cursor(c.rest[1..], c.line), content, d, room);
    }
  }

  /** All content from `c` to the end of the record, or of the text where a quote never closes; nothing
      where the dialect's limit is met first. */
  function Gathered(c: Cursor, content: bytes, d: Dialect): bytes
    requires WfDialect(d)
    decreases |c.rest|
  {
    match Field(c, content, d)
    case Over(_) => []
    case Unclosed(_, more) => more
    case Done(at, more) =>
      if Peek(at.rest) == d.delimiter then Gathered(Cursor(at.rest[1..], at.line), more, d) else more
  }

  lemma {:induction false} ContentGrows(c: Cursor, content: bytes, d: Dialect)
    requires WfDialect(d) && |content| + |c.rest| <= d.limit
    ensures |content| <= |Gathered(c, content, d)|
    decreases |c.rest|
  {
    FieldLimit(c, content, d, d.limit);
    var f := Field(c, content, d);
    hide Field;
    if f.Done? && Peek(f.at.rest) == d.delimiter {
      ContentGrows(Cursor(f.at.rest[1..], f.at.line), f.content, d);
    }
  }

  lemma {:induction false} FieldsLimit(c: Cursor, draft: Draft, d: Dialect, fails: bool, line: nat, room: nat)
    requires WfDialect(d) && |draft.content| + |c.rest| <= room && |draft.content| <= d.limit
    ensures var u, r := Fields(c, draft, Unlimited(d, room), fails, line), Fields(c, draft, d, fails, line);
      var all := Gathered(c, draft.content, Unlimited(d, room));
      && (if |all| <= d.limit then r == u else r.Stopped? && r.error == RecordTooLong(line))
      && (u.Complete? ==> u.draft.content == all)
      && (u.Stopped? ==> !u.error.RecordTooLong?)
    decreases |c.rest|
  {
    var big := Unlimited(d, room);
    FieldLimit(c, draft.content, d, room);
    var f := Field(c, draft.content, big);
    if Field(c, draft.content, d).Done? {
      AmbiguousLimit(c, draft.content, d, room);
    }
    var once := OneField(c, draft, big, fails, line);
    if once.NextField? {
      var at, draft' := once.at, once.draft;
      assert Gathered(c, draft.content, big) == Gathered(at, draft'.content, big);
      if |draft'.content| <= d.limit {
        assert OneField(c, draft, d, fails, line) == once;
        hide OneField, Field, Ambiguous, Gathered;
        FieldsLimit(at, draft', d, fails, line, room);
      } else {
        GatheredInFields(at, draft', big, fails, line);
        ContentGrows(at, draft'.content, big);
      }
    }
  }

  /** What completes is what was gathered, when no limit is in reach. */
  lemma {:induction false} GatheredInFields(c: Cursor, draft: Draft, d: Dialect, fails: bool, line: nat)
    requires WfDialect(d) && |draft.content| + |c.rest| <= d.limit
    ensures var u := Fields(c, draft, d, fails, line);
      && (u.Complete? ==> u.draft.content == Gathered(c, draft.content, d))
      && (u.Stopped? ==> !u.error.RecordTooLong?)
    decreases |c.rest|
  {
    FieldLimit(c, draft.content, d, d.limit);
    var once := OneField(c, draft, d, fails, line);
    if once.NextField? {
      assert Gathered(c, draft.content, d) == Gathered(once.at, once.draft.content, d);
      hide Field, Ambiguous, Gathered, OneField;
      GatheredInFields(once.at, once.draft, d, fails, line);
    }
  }

  /** The record limit is exact: a call yields just what it would yield without, unless what it gathers
      passes the limit; then, and only then, the record is refused as too long, naming the line it starts
      on. That goes for records that end and for a quote that never closes. */
  lemma LimitIsExact(st: State, d: Dialect)
    requires WfDialect(d)
    ensures var big, c := Unlimited(d, |st.at.rest|), SkipBlank(SkipBom(st));
      var u, all := Next(st, big), Gathered(c, [], big);
      && (if |all| <= d.limit then Next(st, d) == u else Next(st, d).0 == Failed(RecordTooLong(c.line)))
      && (u.0.Got? ==> u.0.record.content == all && u.0.record.line == c.line)
      && (u.0.Failed? ==> !u.0.error.RecordTooLong?)
  {
    var c := SkipBlank(SkipBom(st));
    FieldsLimit(c, Draft([], [], NoProblem), d, st.fails, c.line, |st.at.rest|);
    hide Fields, SkipBlank;
  }

  // ----- what a record holds -----

  /** Each field begins where the one before it ends, the first at 0. */
  ghost predicate Shaped(starts: seq<nat>, size: nat) {
    && (starts != [] ==> starts[0] == 0)
    && (forall i, j :: 0 <= i < j < |starts| ==> starts[i] <= starts[j])
    && (forall i :: 0 <= i < |starts| ==> starts[i] <= size)
  }

  lemma {:induction false} FieldsAreShaped(c: Cursor, draft: Draft, d: Dialect, fails: bool, line: nat)
    requires WfDialect(d) && Shaped(draft.starts, |draft.content|)
    requires draft.starts == [] ==> draft.content == []
    ensures var r := Fields(c, draft, d, fails, line);
      r.Complete? ==> Shaped(r.draft.starts, |r.draft.content|) && |r.draft.starts| > |draft.starts|
    decreases |c.rest|
  {
    FieldGrows(c, draft.content, d);
    var once := OneField(c, draft, d, fails, line);
    hide Field, Ambiguous;
    if once.NextField? {
      FieldsAreShaped(once.at, once.draft, d, fails, line);
    }
  }

  lemma {:induction false} QuotedGrows(c: Cursor, content: bytes, d: Dialect)
    ensures var r := Quoted(c, content, d);
      r.Done? ==> content <= r.content
    decreases |c.rest|
  {
    var once := QuotedOnce(c, content, d);
    if once.On? {
      QuotedGrows(once.at, once.content, d);
    }
  }

  lemma {:induction false} UnquotedGrows(c: Cursor, content: bytes, d: Dialect)
    ensures var r := Unquoted(c, content, d);
      r.Done? ==> content <= r.content
    decreases |c.rest|
  {
    if !EndsField(Peek(c.rest), d) && |content| < d.limit {
      UnquotedGrows(Cursor(c.rest[1..], c.line), content + [c.rest[0]], d);
    }
  }

  lemma FieldGrows(c: Cursor, content: bytes, d: Dialect)
    ensures var r := Field(c, content, d);
      r.Done? ==> content <= r.content
  {
    if d.quote >= 0 && Peek(c.rest) == d.quote {
      var inside := Cursor(c.rest[1..], c.line);
      QuotedGrows(inside, content, d);
      var q := Quoted(inside, content, d);
      if q.Done? {
        UnquotedGrows(q.at, q.content, d);
      }
    } else {
      UnquotedGrows(c, content, d);
    }
  }

  function Join(fs: seq<bytes>): bytes
    decreases |fs|
  {
    if fs == [] then [] else fs[0] + Join(fs[1..])
  }

  lemma {:induction false} JoinOneMore(fs: seq<bytes>, f: bytes)
    ensures Join(fs + [f]) == Join(fs) + f
    decreases |fs|
  {
    if fs == [] {
      assert Join([f]) == f + Join([]);
    } else {
      assert (fs + [f])[1..] == fs[1..] + [f];
      JoinOneMore(fs[1..], f);
    }
  }

  /** The first `k` fields of a record are its content up to where the next one begins. */
  lemma {:induction false} FieldsJoined(r: Record, k: nat)
    requires Shaped(r.starts, |r.content|) && k <= |r.starts|
    ensures var end := if k < |r.starts| then r.starts[k] else if k == 0 then 0 else |r.content|;
      end <= |r.content| && Join(FieldsOf(r)[..k]) == r.content[..end]
  {
    if k > 0 {
      FieldsJoined(r, k - 1);
      var fs := FieldsOf(r);
      assert fs[..k] == fs[..k - 1] + [fs[k - 1]];
      JoinOneMore(fs[..k - 1], fs[k - 1]);
      var from, end := r.starts[k - 1], if k < |r.starts| then r.starts[k] else |r.content|;
      assert r.content[..from] + r.content[from..end] == r.content[..end];
    }
  }

  /** A record has at least one field, its fields laid end to end are exactly its content, and it holds
      no more than the limit. */
  lemma RecordsAreShaped(st: State, d: Dialect)
    requires WfDialect(d)
    ensures var o := Next(st, d).0;
      o.Got? ==>
        && Shaped(o.record.starts, |o.record.content|)
        && |FieldsOf(o.record)| >= 1
        && Join(FieldsOf(o.record)) == o.record.content
        && |o.record.content| <= d.limit
  {
    var c := SkipBlank(SkipBom(st));
    var o := Next(st, d).0;
    FieldsAreShaped(c, Draft([], [], NoProblem), d, st.fails, c.line);
    LimitIsExact(st, d);
    if o.Got? {
      var n := |o.record.starts|;
      FieldsJoined(o.record, n);
      assert FieldsOf(o.record)[..n] == FieldsOf(o.record);
      assert o.record.content[..|o.record.content|] == o.record.content;
    }
  }

  // ----- refills -----

  lemma {:induction false} HandIsForgotten(a: State, b: State, d: Dialect)
    requires WfDialect(d) && SkipBom(a) == SkipBom(b) && a.fails == b.fails
    requires a.consumed == b.consumed && a.at == b.at
    ensures ReadAll(a, d) == ReadAll(b, d)
    decreases |a.at.rest|
  {
    var (o, a') := Next(a, d);
    var b' := Next(b, d).1;
    if o.Got? {
      HandIsForgotten(a', b', d);
    }
  }

  /** However a file is cut into refills, as long as the first one brings three bytes or the whole file,
      reading it yields what reading the text in one piece yields. */
  lemma RefillsDoNotMatter(text: bytes, hand: nat, fails: bool, d: Dialect)
    requires WfDialect(d) && (hand >= 3 || hand == |text|)
    ensures ReadAll(Open(text, hand, fails), d) == ReadAll(Open(text, |text|, fails), d)
  {
    HandIsForgotten(Open(text, hand, fails), Open(text, |text|, fails), d);
  }
}
