/** Where records are: line numbers, byte offsets, and the shape of what a record holds. */
module CsvPositions {
  import opened Bytes
  import opened CsvSpec

  /** Line breaks in some bytes: CRLF, LF and a lone CR each count once. */
  function Breaks(s: bytes): nat
    decreases |s|
  {
    if s == [] then 0
    else if s[0] == CR && Peek(s[1..]) == LF as int then 1 + Breaks(s[2..])
    else (if IsBreak(s[0] as int) then 1 else 0) + Breaks(s[1..])
  }

  /** The line of a cursor, told from what is still ahead of it. */
  function Lines(c: Cursor): nat {
    c.line + Breaks(c.rest)
  }

  lemma {:induction false} SkipBlankKeepsLines(c: Cursor)
    ensures Lines(SkipBlank(c)) == Lines(c)
    decreases |c.rest|
  {
    if IsBreak(Peek(c.rest)) {
      SkipBlankKeepsLines(TakeBreak(c));
    }
  }

  lemma QuotedOnceKeepsLines(c: Cursor, content: bytes, d: Dialect)
    requires d.quote != CR as int && d.quote != LF as int
    ensures match QuotedOnce(c, content, d)
      case On(at, _) => Lines(at) == Lines(c)
      case Stop(part) => !part.Over? ==> Lines(part.at) == Lines(c)
  {
    if c.rest != [] {
      var b, rest := c.rest[0], c.rest[1..];
      if rest != [] {
        assert rest[1..] == c.rest[2..];
      }
      if b as int == d.quote {
        assert Breaks(c.rest) == Breaks(rest);
        if Peek(rest) == d.quote {
          assert rest[0] as int == d.quote;
          assert Breaks(rest) == Breaks(rest[1..]);
        }
      }
    }
  }

  lemma {:induction false} QuotedKeepsLines(c: Cursor, content: bytes, d: Dialect)
    requires d.quote != CR as int && d.quote != LF as int
    ensures var r := Quoted(c, content, d);
      !r.Over? ==> Lines(r.at) == Lines(c)
    decreases |c.rest|
  {
    QuotedOnceKeepsLines(c, content, d);
    var once := QuotedOnce(c, content, d);
    hide QuotedOnce, Breaks;
    if once.On? {
      QuotedKeepsLines(once.at, once.content, d);
    }
  }

  lemma {:induction false} UnquotedKeepsLines(c: Cursor, content: bytes, d: Dialect)
    ensures Lines(Unquoted(c, content, d).at) == Lines(c)
    decreases |c.rest|
  {
    if EndsField(Peek(c.rest), d) || |content| >= d.limit {
    } else {
      UnquotedKeepsLines(Cursor(c.rest[1..], c.line), content + [c.rest[0]], d);
    }
  }

  lemma FieldKeepsLines(c: Cursor, content: bytes, d: Dialect)
    requires Sensible(d)
    ensures var r := Field(c, content, d);
      r.Done? ==> Lines(r.at) == Lines(c)
  {
    if d.quote >= 0 && Peek(c.rest) == d.quote {
      var inside := Cursor(c.rest[1..], c.line);
      QuotedKeepsLines(inside, content, d);
      var q := Quoted(inside, content, d);
      if q.Done? {
        UnquotedKeepsLines(q.at, q.content, d);
      }
    } else {
      UnquotedKeepsLines(c, content, d);
    }
  }

  lemma {:induction false} FieldsKeepLines(c: Cursor, draft: Draft, d: Dialect, fails: bool, line: nat)
    requires Sensible(d)
    ensures var r := Fields(c, draft, d, fails, line);
      r.Complete? ==> Lines(r.at) == Lines(c)
    decreases |c.rest|
  {
    FieldKeepsLines(c, draft.content, d);
    var once := OneField(c, draft, d, fails, line);
    if once.NextField? {
      hide OneField, Field, Breaks;
      FieldsKeepLines(once.at, once.draft, d, fails, line);
    }
  }

  /** Splitting bytes anywhere but inside a CRLF splits their line breaks. */
  lemma {:induction false} BreaksConcat(a: bytes, b: bytes)
    requires Peek(b) != LF as int
    ensures Breaks(a + b) == Breaks(a) + Breaks(b)
    decreases |a|
  {
    if a == [] {
      assert a + b == b;
    } else {
      assert (a + b)[1..] == a[1..] + b;
      assert Peek(a[1..] + b) == if |a| > 1 then Peek(a[1..]) else Peek(b);
      if a[0] == CR && Peek(a[1..]) == LF as int {
        assert (a + b)[2..] == a[2..] + b;
        BreaksConcat(a[2..], b);
      } else {
        BreaksConcat(a[1..], b);
      }
    }
  }

  /** A reader that has read its way into `text`. */
  ghost predicate Within(text: bytes, st: State) {
    && st.consumed + |st.at.rest| == |text|
    && st.at.rest == text[st.consumed..]
    && Lines(st.at) == 1 + Breaks(text)
    && (!st.started ==> st.consumed == 0)
  }

  lemma SuffixOf(text: bytes, at: nat, rest: bytes, used: nat)
    requires at <= |text| && rest == text[at..] && used <= |rest|
    ensures rest[used..] == text[at + used..]
  {
  }

  ghost predicate IsSuffix(a: bytes, b: bytes) {
    |a| <= |b| && a == b[|b| - |a|..]
  }

  lemma SuffixTrans(a: bytes, b: bytes, c: bytes)
    requires IsSuffix(a, b) && IsSuffix(b, c)
    ensures IsSuffix(a, c)
  {
  }

  lemma {:induction false} SkipBlankSuffix(c: Cursor)
    ensures IsSuffix(SkipBlank(c).rest, c.rest)
    decreases |c.rest|
  {
    if IsBreak(Peek(c.rest)) {
      SkipBlankSuffix(TakeBreak(c));
    }
  }

  lemma TailSuffix(s: bytes, k: nat)
    requires k <= |s|
    ensures IsSuffix(s[k..], s)
  {
  }

  lemma QuotedOnceSuffix(c: Cursor, content: bytes, d: Dialect)
    ensures match QuotedOnce(c, content, d)
      case On(at, _) => IsSuffix(at.rest, c.rest)
      case Stop(part) => IsSuffix(part.at.rest, c.rest)
  {
    TailSuffix(c.rest, 0);
    assert c.rest[0..] == c.rest;
    if |c.rest| > 0 {
      TailSuffix(c.rest, 1);
    }
    if |c.rest| > 1 {
      assert c.rest[1..][1..] == c.rest[2..];
      TailSuffix(c.rest, 2);
    }
    hide IsSuffix;
  }

  lemma {:induction false} QuotedSuffix(c: Cursor, content: bytes, d: Dialect)
    ensures IsSuffix(Quoted(c, content, d).at.rest, c.rest)
    decreases |c.rest|
  {
    QuotedOnceSuffix(c, content, d);
    var once := QuotedOnce(c, content, d);
    hide QuotedOnce, IsSuffix;
    if once.On? {
      QuotedSuffix(once.at, once.content, d);
      SuffixTrans(Quoted(once.at, once.content, d).at.rest, once.at.rest, c.rest);
    }
  }

  lemma {:induction false} UnquotedSuffix(c: Cursor, content: bytes, d: Dialect)
    ensures IsSuffix(Unquoted(c, content, d).at.rest, c.rest)
    decreases |c.rest|
  {
    if EndsField(Peek(c.rest), d) || |content| >= d.limit {
    } else {
      UnquotedSuffix(Cursor(c.rest[1..], c.line), content + [c.rest[0]], d);
    }
  }

  lemma FieldSuffix(c: Cursor, content: bytes, d: Dialect)
    ensures IsSuffix(Field(c, content, d).at.rest, c.rest)
  {
    if d.quote >= 0 && Peek(c.rest) == d.quote {
      var inside := Cursor(c.rest[1..], c.line);
      QuotedSuffix(inside, content, d);
      var q := Quoted(inside, content, d);
      if q.Done? {
        UnquotedSuffix(q.at, q.content, d);
      }
    } else {
      UnquotedSuffix(c, content, d);
    }
  }

  lemma OneFieldSuffix(c: Cursor, draft: Draft, d: Dialect, fails: bool, line: nat)
    requires WfDialect(d)
    ensures match OneField(c, draft, d, fails, line)
      case NextField(at, _) => IsSuffix(at.rest, c.rest)
      case RecordEnds(ended) => IsSuffix(ended.at.rest, c.rest)
  {
    FieldSuffix(c, draft.content, d);
    var f := Field(c, draft.content, d);
    hide Field, Ambiguous;
    forall k | 0 <= k <= |f.at.rest|
      ensures IsSuffix(f.at.rest[k..], c.rest)
    {
      TailSuffix(f.at.rest, k);
      SuffixTrans(f.at.rest[k..], f.at.rest, c.rest);
    }
  }

  lemma {:induction false} FieldsSuffix(c: Cursor, draft: Draft, d: Dialect, fails: bool, line: nat)
    requires WfDialect(d)
    ensures IsSuffix(Fields(c, draft, d, fails, line).at.rest, c.rest)
    decreases |c.rest|
  {
    OneFieldSuffix(c, draft, d, fails, line);
    var once := OneField(c, draft, d, fails, line);
    hide OneField, IsSuffix;
    if once.NextField? {
      FieldsSuffix(once.at, once.draft, d, fails, line);
      SuffixTrans(Fields(once.at, once.draft, d, fails, line).at.rest, once.at.rest, c.rest);
    }
  }

  lemma SkipBomKeepsLines(st: State)
    ensures Lines(SkipBom(st)) == Lines(st.at) && IsSuffix(SkipBom(st).rest, st.at.rest)
  {
    var s := st.at.rest;
    if BOM <= s {
      assert s[0] == 0xEF && s[1] == 0xBB && s[2] == 0xBF;
      assert s[1..][1..] == s[2..] && s[2..][1..] == s[3..];
      assert Breaks(s) == Breaks(s[1..]) == Breaks(s[2..]) == Breaks(s[3..]);
    }
  }

  /** A record where it says it is: its bytes begin at its offset, on line 1 plus the breaks before, and read
      from there alone they give just this record. */
  ghost predicate Placed(text: bytes, r: Record, d: Dialect, fails: bool)
    requires WfDialect(d)
  {
    && r.offset < |text| && r.line == 1 + Breaks(text[..r.offset]) && !IsBreak(Peek(text[r.offset..]))
    && var ended := Fields(Cursor(text[r.offset..], r.line), Draft([], [], NoProblem), d, fails, r.line);
       ended.Complete? && ended.draft == Draft(r.content, r.starts, r.problem)
  }

  /** One call: the record is placed, and the reader has moved on within the text to just where it ends. The
      offset counts the bytes of a byte order mark; the line counts every break before it, quoted ones
      included. */
  lemma NextIsPlaced(text: bytes, st: State, d: Dialect)
    requires Sensible(d) && Within(text, st)
    ensures var (o, st') := Next(st, d);
      o.Got? ==>
        && Within(text, st') && st'.fails == st.fails
        && Placed(text, o.record, d, st.fails)
        && st.consumed <= o.record.offset < st'.consumed
        && st'.at == Fields(Cursor(text[o.record.offset..], o.record.line), Draft([], [], NoProblem), d, st.fails,
                            o.record.line).at
  {
    hide Fields, SkipBlank, SkipBom, Breaks, Lines, IsSuffix, Within;
    var b := SkipBom(st);
    var c := SkipBlank(b);
    SkipBomKeepsLines(st);
    SkipBlankKeepsLines(b);
    SkipBlankSuffix(b);
    SuffixTrans(c.rest, b.rest, st.at.rest);
    if c.rest != [] {
      assert Peek(c.rest) != LF as int;
      RecordStart(text, st, c);
      var draft := Draft([], [], NoProblem);
      FieldsKeepLines(c, draft, d, st.fails, c.line);
      FieldsSuffix(c, draft, d, st.fails, c.line);
      var f := Fields(c, draft, d, st.fails, c.line);
      if f.Complete? {
        SuffixTrans(f.at.rest, c.rest, st.at.rest);
        MovedWithin(text, st, f.at);
      }
    }
  }

  lemma RecordStart(text: bytes, st: State, c: Cursor)
    requires Within(text, st) && IsSuffix(c.rest, st.at.rest) && Lines(c) == Lines(st.at)
    requires Peek(c.rest) != LF as int
    ensures var offset := Moved(st, c).consumed;
      && st.consumed <= offset <= |text| && offset + |c.rest| == |text| && text[offset..] == c.rest
      && c.line == 1 + Breaks(text[..offset])
  {
    var offset := Moved(st, c).consumed;
    SuffixOf(text, st.consumed, st.at.rest, |st.at.rest| - |c.rest|);
    assert c.rest == text[offset..];
    assert text == text[..offset] + c.rest;
    BreaksConcat(text[..offset], c.rest);
  }

  lemma MovedWithin(text: bytes, st: State, at: Cursor)
    requires Within(text, st) && IsSuffix(at.rest, st.at.rest) && Lines(at) == Lines(st.at)
    ensures Within(text, Moved(st, at)) && Moved(st, at).consumed + |at.rest| == |text|
  {
    hide Breaks;
    SuffixOf(text, st.consumed, st.at.rest, |st.at.rest| - |at.rest|);
  }

  /** Records in order, each where it says, none before `from`. */
  ghost predicate AllPlaced(text: bytes, from: nat, rs: seq<Record>, d: Dialect, fails: bool)
    requires WfDialect(d)
  {
    && (forall i :: 0 <= i < |rs| ==> from <= rs[i].offset && Placed(text, rs[i], d, fails))
    && (forall i, j :: 0 <= i < j < |rs| ==> rs[i].offset < rs[j].offset)
  }

  lemma OneMorePlaced(text: bytes, from: nat, next: nat, r: Record, rs: seq<Record>, d: Dialect, fails: bool)
    requires WfDialect(d) && Placed(text, r, d, fails) && from <= r.offset < next && AllPlaced(text, next, rs, d, fails)
    ensures AllPlaced(text, from, [r] + rs, d, fails)
  {
    hide Placed;
    var all := [r] + rs;
    assert forall i :: 1 <= i < |all| ==> all[i] == rs[i - 1];
  }

  /** Every record of a text is where it says, and the offsets only move forward. */
  lemma {:induction false} RecordsArePlaced(text: bytes, st: State, d: Dialect)
    requires Sensible(d) && Within(text, st)
    ensures AllPlaced(text, st.consumed, ReadAll(st, d).0, d, st.fails)
    decreases |st.at.rest|
  {
    hide Next, Within, AllPlaced;
    NextIsPlaced(text, st, d);
    var (o, st') := Next(st, d);
    if o.Got? {
      RecordsArePlaced(text, st', d);
      OneMorePlaced(text, st.consumed, st'.consumed, o.record, ReadAll(st', d).0, d, st.fails);
    } else {
      NonePlaced(text, st.consumed, d, st.fails);
    }
  }

  lemma NonePlaced(text: bytes, from: nat, d: Dialect, fails: bool)
    requires WfDialect(d)
    ensures AllPlaced(text, from, [], d, fails)
  {
  }

  lemma OpenIsWithin(text: bytes, hand: nat, fails: bool)
    ensures Within(text, Open(text, hand, fails))
  {
  }
}
