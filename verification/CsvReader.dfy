/** The reader as src/csv_reader.c has it: a buffer refilled from a file, one byte at a time, and a
    growing buffer for the record in hand. Each call is proved to yield what one pass over the whole
    text yields, whatever the refills bring. */
module CsvReader {
  import opened Bytes
  import opened CsvSpec

  const CHUNK := 65536

  function Flat(chunks: seq<bytes>): bytes {
    if chunks == [] then [] else chunks[0] + Flat(chunks[1..])
  }

  /** The sizes the record buffer takes: none, then doubling from 256 up to the record limit. */
  predicate BufferSize(cap: nat) {
    cap in {0, 0x100, 0x200, 0x400, 0x800, 0x1000, 0x2000, 0x4000, 0x8000, 0x10000, 0x20000, 0x40000,
            0x80000, 0x100000, 0x200000, 0x400000, 0x800000, 0x1000000, 0x2000000, 0x4000000}
  }

  lemma BomInHand(hand: bytes, more: bytes)
    ensures |hand| >= 3 ==> (BOM <= hand + more <==> hand[0] == 0xEF && hand[1] == 0xBB && hand[2] == 0xBF)
  {
    if |hand| >= 3 {
      var s := hand + more;
      assert s[..3] == [hand[0], hand[1], hand[2]];
      assert BOM <= s <==> s[..3] == BOM;
    }
  }

  datatype RoundEnd = GoesOn | Ends(end: PartEnd)

  datatype PartEnd = PartDone | PartUnclosed | PartOver

  class GbCsvReader {
    // The input. `chunks` is what the next calls of fread will bring, and `fails` whether the one after
    // them reports an error; for a text both are fixed from the start.
    var hand: bytes
    var inPos: nat
    var chunks: seq<bytes>
    const fails: bool
    var atEof: bool
    var failed: bool
    ghost const firstHand: nat

    const d: Dialect

    var consumed: nat
    var line: nat
    var started: bool

    // The record in hand.
    var fieldBuf: array<byte>
    var fieldLen: nat
    var startsBuf: array<nat>
    var nfields: nat
    var recLine: nat
    var recOffset: nat
    var problem: Problem
    var error: Error

    /** The bytes not taken yet: those in hand and those still to be read. */
    ghost function Rest(): bytes
      reads `hand, `inPos, `chunks
    {
      (if inPos <= |hand| then hand[inPos..] else []) + Flat(chunks)
    }

    ghost predicate InputOk()
      reads `hand, `inPos, `chunks, `atEof, `failed
    {
      && inPos <= |hand|
      && (forall i :: 0 <= i < |chunks| ==> 1 <= |chunks[i]| <= CHUNK)
      && (atEof ==> chunks == [] && failed == fails && (fails ==> inPos == |hand|))
      && (!atEof ==> !failed)
    }

    /** Nothing has been read yet. */
    ghost predicate Unread()
      reads `hand, `inPos, `chunks, `atEof
    {
      && inPos == 0
      && if atEof then firstHand == |hand|
         else hand == [] && firstHand == (if chunks == [] then 0 else |chunks[0]|)
    }

    ghost predicate RecordOk()
      reads `fieldBuf, `fieldLen, `startsBuf, `nfields
    {
      fieldLen <= fieldBuf.Length && BufferSize(fieldBuf.Length) && nfields <= startsBuf.Length
    }

    ghost predicate Valid()
      reads this
    {
      InputOk() && RecordOk() && WfDialect(d) && d.limit == MAX_RECORD && (!started ==> Unread())
    }

    ghost function At(): Cursor
      reads `hand, `inPos, `chunks, `line
    {
      Cursor(Rest(), line)
    }

    ghost function State(): CsvSpec.State
      requires Valid()
      reads this
    {
      CsvSpec.State(started, firstHand, fails, consumed, At())
    }

    ghost function Content(): bytes
      reads `fieldBuf, `fieldLen, fieldBuf
    {
      if fieldLen <= fieldBuf.Length then fieldBuf[..fieldLen] else []
    }

    ghost function Starts(): seq<nat>
      reads `startsBuf, `nfields, startsBuf
    {
      if nfields <= startsBuf.Length then startsBuf[..nfields] else []
    }

    /** `gb_csv_open_text`. */
    constructor OverText(text: bytes, delimiter: int, quote: int)
      requires WfDialect(Dialect(delimiter, quote, MAX_RECORD))
      ensures Valid() && fresh(fieldBuf) && fresh(startsBuf)
      ensures State() == Open(text, |text|, false) && d == Dialect(delimiter, quote, MAX_RECORD)
    {
      d := Dialect(delimiter, quote, MAX_RECORD);
      hand, inPos, chunks, fails, atEof, failed, firstHand := text, 0, [], false, true, false, |text|;
      consumed, line, started := 0, 1, false;
      fieldBuf, startsBuf := new byte[0], new nat[0];
      fieldLen, nfields, recLine, recOffset, problem, error := 0, 0, 0, 0, NoProblem, ReadFailed;
      new;
      assert hand[0..] + [] == text;
    }

    /** `gb_csv_open_file`, where reading the file will bring `chunks`, and then an error if `fails`. */
    constructor OverFile(chunks: seq<bytes>, fails: bool, delimiter: int, quote: int)
      requires WfDialect(Dialect(delimiter, quote, MAX_RECORD))
      requires forall i :: 0 <= i < |chunks| ==> 1 <= |chunks[i]| <= CHUNK
      ensures Valid() && fresh(fieldBuf) && fresh(startsBuf)
      ensures State() == Open(Flat(chunks), if chunks == [] then 0 else |chunks[0]|, fails)
      ensures d == Dialect(delimiter, quote, MAX_RECORD)
    {
      d := Dialect(delimiter, quote, MAX_RECORD);
      hand, inPos, this.chunks, this.fails, atEof, failed := [], 0, chunks, fails, false, false;
      firstHand := if chunks == [] then 0 else |chunks[0]|;
      consumed, line, started := 0, 1, false;
      fieldBuf, startsBuf := new byte[0], new nat[0];
      fieldLen, nfields, recLine, recOffset, problem, error := 0, 0, 0, 0, NoProblem, ReadFailed;
      new;
      assert [] + Flat(chunks) == Flat(chunks);
    }

    // ----- the input -----

    /** `fill`. */
    method Fill() returns (ok: bool)
      requires InputOk() && inPos == |hand|
      modifies this`hand, this`inPos, this`chunks, this`atEof, this`failed
      ensures InputOk() && Rest() == old(Rest())
      ensures ok ==> inPos < |hand|
      ensures !ok ==> Rest() == [] && atEof && failed == fails
      ensures old(Unread()) ==> |hand| == firstHand && inPos == 0
    {
      if atEof {
        return false;
      }
      if chunks == [] {
        hand, inPos := [], 0;
        failed := fails;
        atEof := true;
        return false;
      }
      hand, inPos, chunks := chunks[0], 0, chunks[1..];
      return true;
    }

    /** `peek`. */
    method PeekByte() returns (c: int)
      requires InputOk()
      modifies this`hand, this`inPos, this`chunks, this`atEof, this`failed
      ensures InputOk() && Rest() == old(Rest()) && c == Peek(Rest())
      ensures c >= 0 ==> inPos < |hand| && hand[inPos] as int == c
      ensures c < 0 ==> Rest() == [] && failed == fails
      ensures c >= 0 ==> !failed
      ensures old(Unread()) ==> |hand| == firstHand && inPos == 0
    {
      if inPos >= |hand| {
        var ok := Fill();
        if !ok {
          return -1;
        }
      }
      c := hand[inPos] as int;
    }

    /** `take`. */
    method TakeByte()
      requires InputOk() && inPos < |hand|
      modifies this`inPos, this`consumed
      ensures InputOk() && Rest() == old(Rest())[1..] && consumed == old(consumed) + 1
    {
      inPos := inPos + 1;
      consumed := consumed + 1;
    }
  
    // ----- the record in hand -----

    /** `put`: refused only when the record already holds as many bytes as a record may. */
    method Put(c: byte) returns (ok: bool)
      requires RecordOk()
      modifies this`fieldBuf, this`fieldLen, fieldBuf
      ensures RecordOk() && (fieldBuf == old(fieldBuf) || fresh(fieldBuf))
      ensures ok <==> |old(Content())| < MAX_RECORD
      ensures Content() == if ok then old(Content()) + [c] else old(Content())
    {
      if fieldLen == fieldBuf.Length {
        if fieldBuf.Length >= MAX_RECORD {
          return false;
        }
        var next := if fieldBuf.Length == 0 then 256 else fieldBuf.Length * 2;
        var grown := new byte[next];
        forall k | 0 <= k < fieldLen {
          grown[k] := fieldBuf[k];
        }
        assert grown[..fieldLen] == fieldBuf[..fieldLen];
        fieldBuf := grown;
      }
      fieldBuf[fieldLen] := c;
      fieldLen := fieldLen + 1;
      return true;
    }

    /** `begin_field`. */
    method BeginField()
      requires RecordOk()
      modifies this`startsBuf, this`nfields, startsBuf
      ensures RecordOk() && (startsBuf == old(startsBuf) || fresh(startsBuf))
      ensures Starts() == old(Starts()) + [|Content()|]
    {
      if nfields == startsBuf.Length {
        var grown := new nat[if startsBuf.Length == 0 then 16 else startsBuf.Length * 2];
        forall k | 0 <= k < nfields {
          grown[k] := startsBuf[k];
        }
        assert grown[..nfields] == startsBuf[..nfields];
        startsBuf := grown;
      }
      startsBuf[nfields] := fieldLen;
      nfields := nfields + 1;
    }

    // ----- the loops of gb_csv_next -----

    /** `take_break`. */
    method TakeLineBreak(c: int)
      requires InputOk() && inPos < |hand| && c == Peek(Rest()) && IsBreak(c)
      modifies this`hand, this`inPos, this`chunks, this`atEof, this`failed, this`consumed, this`line
      ensures InputOk() && At() == TakeBreak(old(At()))
      ensures consumed + |Rest()| == old(consumed + |Rest()|)
    {
      TakeByte();
      if c == CR as int {
        var next := PeekByte();
        if next == LF as int {
          TakeByte();
        }
      }
      line := line + 1;
    }

    /** Blank lines are skipped; answers the byte that follows them. */
    method SkipBlankLines() returns (c: int)
      requires InputOk()
      modifies this`hand, this`inPos, this`chunks, this`atEof, this`failed, this`consumed, this`line
      ensures InputOk() && At() == SkipBlank(old(At())) && c == Peek(Rest())
      ensures c >= 0 ==> inPos < |hand| && !failed
      ensures c < 0 ==> failed == fails
      ensures consumed + |Rest()| == old(consumed + |Rest()|)
    {
      c := PeekByte();
      while c == CR as int || c == LF as int
        invariant InputOk() && c == Peek(Rest())
        invariant c >= 0 ==> inPos < |hand| && !failed
        invariant c < 0 ==> failed == fails
        invariant SkipBlank(At()) == SkipBlank(old(At()))
        invariant consumed + |Rest()| == old(consumed + |Rest()|)
        decreases |Rest()|
      {
        TakeLineBreak(c);
        c := PeekByte();
      }
    }

    /** One round of the loop inside quotes. */
    method QuotedRound() returns (r: RoundEnd)
      requires Reading() && d.quote >= 0
      modifies this`hand, this`inPos, this`chunks, this`atEof, this`failed, this`consumed, this`line
      modifies this`fieldBuf, this`fieldLen, fieldBuf
      ensures Reading() && (fieldBuf == old(fieldBuf) || fresh(fieldBuf))
      ensures Matches(r, QuotedOnce(old(At()), old(Content()), d))
      ensures consumed + |Rest()| == old(consumed + |Rest()|)
    {
      hide InputOk, Rest, RecordOk, Content, Flat, BufferSize;
      var c := PeekByte();
      if c < 0 {
        return Ends(PartUnclosed);
      }
      TakeByte();
      assert [c] + Rest() == old(Rest());
      if c == d.quote {
        var next := PeekByte();
        if next != d.quote {
          return Ends(PartDone);
        }
        TakeByte();
        var ok := Put(c);
        return if ok then GoesOn else Ends(PartOver);
      }
      r := ContentRound(c);
    }

    /** A byte of content inside quotes, which has been taken: a break is one line, a CRLF also. */
    method ContentRound(c: byte) returns (r: RoundEnd)
      requires Reading() && c as int != d.quote
      modifies this`hand, this`inPos, this`chunks, this`atEof, this`failed, this`consumed, this`line
      modifies this`fieldBuf, this`fieldLen, fieldBuf
      ensures Reading() && (fieldBuf == old(fieldBuf) || fresh(fieldBuf))
      ensures Matches(r, QuotedOnce(Cursor([c] + old(Rest()), old(line)), old(Content()), d))
      ensures consumed + |Rest()| == old(consumed + |Rest()|)
    {
      hide InputOk, Rest, RecordOk, Content, Flat, BufferSize;
      assert ([c] + Rest())[1..] == Rest();
      if c == CR {
        var next := PeekByte();
        if next == LF as int {
          r := PutPair();
          return;
        }
      }
      if c == CR || c == LF {
        line := line + 1;
      }
      var ok := Put(c);
      return if ok then GoesOn else Ends(PartOver);
    }

    /** A CRLF inside quotes, of which the CR has been taken: both are content, and one line. */
    method PutPair() returns (r: RoundEnd)
      requires Reading() && inPos < |hand| && Rest() != [] && Rest()[0] == LF
      modifies this`inPos, this`consumed, this`line, this`fieldBuf, this`fieldLen, fieldBuf
      ensures Reading() && (fieldBuf == old(fieldBuf) || fresh(fieldBuf))
      ensures var n, rest := |old(Content())|, old(Rest());
        && At() == (if n >= MAX_RECORD then old(At()) else Cursor(rest[1..], old(line) + 1))
        && r == (if n + 1 >= MAX_RECORD then Ends(PartOver) else GoesOn)
        && (r == GoesOn ==> Content() == old(Content()) + [CR, LF])
      ensures consumed + |Rest()| == old(consumed + |Rest()|)
    {
      hide InputOk, Rest, RecordOk, Content, Flat, BufferSize;
      var ok := Put(CR);
      if !ok {
        return Ends(PartOver);
      }
      TakeByte();
      line := line + 1;
      ok := Put(LF);
      assert old(Content()) + [CR] + [LF] == old(Content()) + [CR, LF];
      return if ok then GoesOn else Ends(PartOver);
    }

    /** The state inside a record. */
    ghost predicate Reading()
      reads `hand, `inPos, `chunks, `atEof, `failed, `fieldBuf, `fieldLen, `startsBuf, `nfields
    {
      InputOk() && RecordOk() && WfDialect(d) && d.limit == MAX_RECORD
    }

    /** A round ended, or goes on, as the specification's does. */
    ghost predicate Matches(r: RoundEnd, once: Once)
      requires Reading()
      reads `hand, `inPos, `chunks, `atEof, `failed, `line, `fieldBuf, `fieldLen, `startsBuf, `nfields, fieldBuf
    {
      match r
      case GoesOn => once == On(At(), Content())
      case Ends(e) => once.Stop? && EndsAs(e, once.part)
    }

    ghost predicate EndsAs(e: PartEnd, part: Part)
      requires Reading()
      reads `hand, `inPos, `chunks, `atEof, `failed, `line, `fieldBuf, `fieldLen, `startsBuf, `nfields, fieldBuf
    {
      && part.at == At()
      && match e
         case PartDone => part.Done? && part.content == Content()
         case PartUnclosed => part.Unclosed? && failed == fails
         case PartOver => part.Over?
    }

    /** The inside of a quoted field. */
    method ReadQuoted() returns (r: PartEnd)
      requires Reading() && d.quote >= 0
      modifies this`hand, this`inPos, this`chunks, this`atEof, this`failed, this`consumed, this`line
      modifies this`fieldBuf, this`fieldLen, fieldBuf
      ensures Reading() && (fieldBuf == old(fieldBuf) || fresh(fieldBuf))
      ensures EndsAs(r, Quoted(old(At()), old(Content()), d))
      ensures consumed + |Rest()| == old(consumed + |Rest()|)
    {
      hide QuotedOnce, InputOk, RecordOk, Rest, Content, EndsAs;
      while true
        invariant Reading() && (fieldBuf == old(fieldBuf) || fresh(fieldBuf))
        invariant Quoted(At(), Content(), d) == Quoted(old(At()), old(Content()), d)
        invariant consumed + |Rest()| == old(consumed + |Rest()|)
        decreases |Rest()|
      {
        var round := QuotedRound();
        if round.Ends? {
          return round.end;
        }
      }
    }

    /** Unquoted text, up to the delimiter, a line break or the end. Answers the byte it stops at. */
    method ReadUnquoted() returns (r: PartEnd, c: int)
      requires Reading()
      modifies this`hand, this`inPos, this`chunks, this`atEof, this`failed, this`consumed
      modifies this`fieldBuf, this`fieldLen, fieldBuf
      ensures Reading() && (fieldBuf == old(fieldBuf) || fresh(fieldBuf))
      ensures EndsAs(r, Unquoted(old(At()), old(Content()), d))
      ensures r.PartDone? ==> c == Peek(Rest()) && (c >= 0 ==> inPos < |hand| && !failed) && (c < 0 ==> failed == fails)
      ensures consumed + |Rest()| == old(consumed + |Rest()|)
    {
      hide InputOk, RecordOk, Rest, Content;
      while true
        invariant Reading() && (fieldBuf == old(fieldBuf) || fresh(fieldBuf))
        invariant Unquoted(At(), Content(), d) == Unquoted(old(At()), old(Content()), d)
        invariant consumed + |Rest()| == old(consumed + |Rest()|)
        decreases |Rest()|
      {
        c := PeekByte();
        if c < 0 || c == d.delimiter || c == CR as int || c == LF as int {
          return PartDone, c;
        }
        TakeByte();
        var ok := Put(c);
        if !ok {
          return PartOver, c;
        }
      }
    }
  
    /** One field, after `begin_field`: quoted if it starts with the quote, then up to where it ends. */
    method ReadField() returns (r: PartEnd, c: int)
      requires Reading()
      modifies this`hand, this`inPos, this`chunks, this`atEof, this`failed, this`consumed, this`line
      modifies this`fieldBuf, this`fieldLen, this`problem, fieldBuf
      ensures Reading() && (fieldBuf == old(fieldBuf) || fresh(fieldBuf))
      ensures EndsAs(r, Field(old(At()), old(Content()), d))
      ensures r.PartDone? ==> c == Peek(Rest()) && (c >= 0 ==> inPos < |hand| && !failed) && (c < 0 ==> failed == fails)
      ensures problem == if old(problem).NoProblem? && Ambiguous(old(At()), old(Content()), d)
        then TextAfterQuote else old(problem)
      ensures consumed + |Rest()| == old(consumed + |Rest()|)
    {
      hide InputOk, RecordOk, Rest, Content, Quoted, Unquoted;
      c := PeekByte();
      if d.quote >= 0 && c == d.quote {
        TakeByte();
        r := ReadQuoted();
        if r != PartDone {
          return;
        }
        c := PeekByte();
        if c >= 0 && c != d.delimiter && c != CR as int && c != LF as int && problem == NoProblem {
          problem := TextAfterQuote;
        }
      }
      r, c := ReadUnquoted();
    }

    /** One round of the outer loop of `gb_csv_next`: 0 to go on, 1 when the record is complete, or -1. */
    method FieldsRound() returns (rc: int)
      requires Reading()
      modifies this`hand, this`inPos, this`chunks, this`atEof, this`failed, this`consumed, this`line
      modifies this`fieldBuf, this`fieldLen, this`startsBuf, this`nfields, this`problem, this`error, fieldBuf, startsBuf
      ensures Reading()
      ensures (fieldBuf == old(fieldBuf) || fresh(fieldBuf)) && (startsBuf == old(startsBuf) || fresh(startsBuf))
      ensures match OneField(old(At()), Draft(old(Content()), old(Starts()), old(problem)), d, fails, recLine)
        case NextField(at, draft) => rc == 0 && At() == at && draft == Draft(Content(), Starts(), problem)
        case RecordEnds(ended) => EndsRecord(rc, ended)
      ensures consumed + |Rest()| == old(consumed + |Rest()|)
    {
      hide InputOk, RecordOk, Rest, Content, Starts, Field, Ambiguous;
      BeginField();
      var openedOn := line;
      var r, c := ReadField();
      if r == PartUnclosed {
        error := if failed then ReadFailed else UnclosedQuote(openedOn);
        return -1;
      }
      if r == PartOver {
        error := RecordTooLong(recLine);
        return -1;
      }
      if failed {
        error := ReadFailed;
        return -1;
      }
      if c == d.delimiter {
        TakeByte();
        return 0;
      }
      if c == CR as int || c == LF as int {
        TakeLineBreak(c);
      }
      return 1;
    }

    ghost predicate EndsRecord(rc: int, ended: Ended)
      reads `hand, `inPos, `chunks, `line, `fieldBuf, `fieldLen, fieldBuf, `startsBuf, `nfields, startsBuf, `problem, `error
    {
      && ended.at == At()
      && match ended
         case Complete(_, draft) => rc == 1 && draft == Draft(Content(), Starts(), problem)
         case Stopped(_, e) => rc == -1 && error == e
    }

    /** The outer loop of `gb_csv_next`: the fields of one record. Answers 1, or -1 with the error. */
    method ReadFields() returns (rc: int)
      requires Reading()
      modifies this`hand, this`inPos, this`chunks, this`atEof, this`failed, this`consumed, this`line
      modifies this`fieldBuf, this`fieldLen, this`startsBuf, this`nfields, this`problem, this`error, fieldBuf, startsBuf
      ensures Reading()
      ensures (fieldBuf == old(fieldBuf) || fresh(fieldBuf)) && (startsBuf == old(startsBuf) || fresh(startsBuf))
      ensures EndsRecord(rc, Fields(old(At()), Draft(old(Content()), old(Starts()), old(problem)), d, fails, recLine))
      ensures consumed + |Rest()| == old(consumed + |Rest()|)
    {
      assert WfDialect(d);
      hide InputOk, RecordOk, Rest, Content, Starts, OneField, Reading, WfDialect;
      ghost var whole := Fields(At(), Draft(Content(), Starts(), problem), d, fails, recLine);
      rc := 0;
      while rc == 0
        invariant Reading()
        invariant (fieldBuf == old(fieldBuf) || fresh(fieldBuf)) && (startsBuf == old(startsBuf) || fresh(startsBuf))
        invariant if rc == 0 then Fields(At(), Draft(Content(), Starts(), problem), d, fails, recLine) == whole
                  else EndsRecord(rc, whole)
        invariant consumed + |Rest()| == old(consumed + |Rest()|)
        decreases rc == 0, |Rest()|
      {
        rc := FieldsRound();
      }
    }

    /** The byte order mark, looked for in what the first refill brought. */
    method SkipByteOrderMark()
      requires Valid() && !started
      modifies this`hand, this`inPos, this`chunks, this`atEof, this`failed, this`consumed, this`started
      ensures Valid() && started && At() == SkipBom(old(State()))
      ensures consumed + |Rest()| == old(consumed + |Rest()|)
    {
      assert Unread();
      ghost var rest := Rest();
      started := true;
      var c := PeekByte();
      BomInHand(hand, Flat(chunks));
      if c >= 0 {
        assert Rest() == hand + Flat(chunks) by {
          assert hand[0..] == hand;
        }
      }
      hide Flat, CsvSpec.Peek;
      if c == 0xEF {
        var save := inPos;
        if |hand| - inPos >= 3 && hand[save + 1] == 0xBB && hand[save + 2] == 0xBF {
          TakeThree();
        }
      }
    }

    method TakeThree()
      requires InputOk() && inPos + 3 <= |hand|
      modifies this`inPos, this`consumed
      ensures InputOk() && |old(Rest())| >= 3 && Rest() == old(Rest())[3..] && consumed == old(consumed) + 3
    {
      TakeByte();
      TakeByte();
      TakeByte();
    }

    /** `gb_csv_next`: 1 with a record in hand, 0 at the end, -1 with an error. */
    method Next() returns (rc: int)
      requires Valid()
      modifies this, fieldBuf, startsBuf
      ensures Valid()
      ensures (fieldBuf == old(fieldBuf) || fresh(fieldBuf)) && (startsBuf == old(startsBuf) || fresh(startsBuf))
      ensures State() == CsvSpec.Next(old(State()), d).1
      ensures match CsvSpec.Next(old(State()), d).0
        case Got(record) => rc == 1 && record == Record(Content(), Starts(), problem, recLine, recOffset)
        case EndOfInput => rc == 0
        case Failed(e) => rc == -1 && error == e
    {
      hide Fields, SkipBlank, InputOk, Unread, Rest, BufferSize, Flat;
      if !started {
        SkipByteOrderMark();
      } else {
        assert At() == SkipBom(State());
      }
      var c := SkipBlankLines();
      if failed {
        error := ReadFailed;
        return -1;
      }
      if c < 0 {
        return 0;
      }
      StartRecord();
      hide Starts, Content, RecordOk;
      rc := ReadFields();
    }

    method StartRecord()
      requires Reading()
      modifies this`fieldLen, this`nfields, this`problem, this`recLine, this`recOffset
      ensures Reading() && Content() == [] && Starts() == [] && problem == NoProblem
      ensures recLine == line && recOffset == consumed
    {
      fieldLen := 0;
      nfields := 0;
      problem := NoProblem;
      recLine := line;
      recOffset := consumed;
    }

    /** `gb_csv_field`. */
    method FieldBytes(i: nat) returns (bytesOfField: bytes)
      requires RecordOk() && i < nfields
      requires forall k :: 0 <= k < nfields ==> startsBuf[k] <= fieldLen
      requires i + 1 < nfields ==> startsBuf[i] <= startsBuf[i + 1]
      ensures bytesOfField == FieldAt(Record(Content(), Starts(), problem, recLine, recOffset), i)
    {
      var end := if i + 1 < nfields then startsBuf[i + 1] else fieldLen;
      bytesOfField := fieldBuf[startsBuf[i]..end];
      assert bytesOfField == fieldBuf[..fieldLen][startsBuf[i]..end];
    }
  }
}
