/**
  Diagnostics as JSON (`src/diagnostics.c`): what `gb_diag_write_json` writes, and a reader of strings as in
  section 7 of RFC 8259 that gets every field back.
*/
module JsonText {
  import opened Wrappers
  import opened Chars
  import opened NumberText

  /* ---- strings ---- */

  function HexDigit(n: int): char
    requires 0 <= n < 16
  {
    if n < 10 then (n + '0' as int) as char else (n - 10 + 'a' as int) as char
  }

  /** One byte inside a string literal, as `json_escape` writes it. */
  function Escaped(c: char): (r: string) {
    match c
    case '"' => "\\\""
    case '\\' => "\\\\"
    case '\n' => "\\n"
    case '\r' => "\\r"
    case '\t' => "\\t"
    case _ =>
      if c as int == 8 then "\\b"
      else if c as int == 12 then "\\f"
      else if c < ' ' then "\\u00" + [HexDigit(c as int / 16), HexDigit(c as int % 16)]
      else [c]
  }

  function EscapedAll(s: string): string {
    if s == "" then "" else Escaped(s[0]) + EscapedAll(s[1..])
  }

  function Quoted(s: string): string { "\"" + EscapedAll(s) + "\"" }

  function HexValue(c: char): int {
    if '0' <= c <= '9' then c as int - '0' as int
    else if 'a' <= c <= 'f' then c as int - 'a' as int + 10
    else if 'A' <= c <= 'F' then c as int - 'A' as int + 10
    else -1
  }

  /** The bytes of a code point below 0x10000. */
  function Utf8Of(code: int): string
    requires 0 <= code < 0x1_0000
  {
    if code < 0x80 then [code as char]
    else if code < 0x800 then [(0xC0 + code / 64) as char, (0x80 + code % 64) as char]
    else [(0xE0 + code / 4096) as char, (0x80 + code / 64 % 64) as char, (0x80 + code % 64) as char]
  }

  datatype Unit = NoUnit | Unit(bytes: string, length: nat)

  /** One character of a string literal: not a quote, not a control character; `\u` outside the surrogates. */
  function ReadUnit(s: string): (u: Unit)
    ensures u.Unit? ==> 0 < u.length <= |s|
  {
    if s == "" || s[0] < ' ' || s[0] == '"' then NoUnit
    else if s[0] != '\\' then Unit([s[0]], 1)
    else if |s| < 2 then NoUnit
    else
      match s[1]
      case '"' => Unit("\"", 2)
      case '\\' => Unit("\\", 2)
      case '/' => Unit("/", 2)
      case 'b' => Unit([8 as char], 2)
      case 'f' => Unit([12 as char], 2)
      case 'n' => Unit("\n", 2)
      case 'r' => Unit("\r", 2)
      case 't' => Unit("\t", 2)
      case 'u' =>
        if |s| < 6 || HexValue(s[2]) < 0 || HexValue(s[3]) < 0 || HexValue(s[4]) < 0 || HexValue(s[5]) < 0 then NoUnit
        else
          var code := 4096 * HexValue(s[2]) + 256 * HexValue(s[3]) + 16 * HexValue(s[4]) + HexValue(s[5]);
          if 0xD800 <= code < 0xE000 then NoUnit else Unit(Utf8Of(code), 6)
      case _ => NoUnit
  }

  datatype Read<T> = NoRead | Read(value: T, rest: string)

  /** Up to and past the closing quote. */
  function ReadBody(s: string): Read<string>
    decreases |s|
  {
    if s != "" && s[0] == '"' then Read("", s[1..])
    else match ReadUnit(s)
      case NoUnit => NoRead
      case Unit(bytes, n) =>
        match ReadBody(s[n..])
        case NoRead => NoRead
        case Read(more, rest) => Read(bytes + more, rest)
  }

  function ReadString(s: string): Read<string> {
    if s != "" && s[0] == '"' then ReadBody(s[1..]) else NoRead
  }

  /** Every byte is read back from its escape, whatever follows. */
  lemma UnitReadBack(c: char, more: string)
    ensures var e := Escaped(c); ReadUnit(e + more) == Unit([c], |e|)
    ensures Escaped(c) != "" && Escaped(c)[0] != '"'
  {
    var s := Escaped(c) + more;
    if c < ' ' && |Escaped(c)| == 6 {
      var high, low := c as int / 16, c as int % 16;
      assert HexValue(HexDigit(high)) == high && HexValue(HexDigit(low)) == low;
      assert s[2] == '0' && s[3] == '0' && s[4] == HexDigit(high) && s[5] == HexDigit(low);
    }
  }

  lemma {:induction false} EscapedJoins(a: string, b: string)
    ensures EscapedAll(a + b) == EscapedAll(a) + EscapedAll(b)
  {
    if a == "" {
      assert a + b == b;
    } else {
      assert (a + b)[1..] == a[1..] + b;
      EscapedJoins(a[1..], b);
    }
  }

  lemma EscapedNone(s: string)
    ensures EscapedAll(s[..0]) == "" && EscapedAll(s[..|s|]) == EscapedAll(s)
  {
    assert s[..|s|] == s;
  }

  lemma EscapedMore(s: string, p: nat)
    requires p < |s|
    ensures EscapedAll(s[..p + 1]) == EscapedAll(s[..p]) + Escaped(s[p])
  {
    assert s[..p + 1] == s[..p] + [s[p]];
    EscapedJoins(s[..p], [s[p]]);
    assert EscapedAll([s[p]]) == Escaped(s[p]) + EscapedAll([]);
  }

  lemma {:induction false} BodyReadBack(s: string, rest: string)
    ensures ReadBody(EscapedAll(s) + "\"" + rest) == Read(s, rest)
    decreases |s|
  {
    if s == "" {
      assert (EscapedAll(s) + "\"" + rest)[1..] == rest;
    } else {
      var e := Escaped(s[0]);
      var more := EscapedAll(s[1..]) + "\"" + rest;
      assert EscapedAll(s) + "\"" + rest == e + more;
      UnitReadBack(s[0], more);
      assert (e + more)[|e|..] == more;
      BodyReadBack(s[1..], rest);
      assert [s[0]] + s[1..] == s;
      hide Escaped, EscapedAll, ReadUnit;
    }
  }

  /** A quoted string is read back whole, and the reader stops right after it. */
  lemma QuotedReadBack(s: string, rest: string)
    ensures ReadString(Quoted(s) + rest) == Read(s, rest)
  {
    BodyReadBack(s, rest);
    assert (Quoted(s) + rest)[1..] == EscapedAll(s) + "\"" + rest;
  }

  predicate Printable(s: string) { forall i :: 0 <= i < |s| ==> s[i] >= ' ' }

  /** No control character, so no line end, is ever written inside a literal. */
  lemma {:induction false} QuotedIsPrintable(s: string)
    ensures Printable(EscapedAll(s)) && Printable(Quoted(s))
  {
    if s != "" {
      QuotedIsPrintable(s[1..]);
    }
  }

  /* ---- numbers ---- */

  function Natural(n: nat): (r: string) {
    if n < 10 then [(n + '0' as int) as char] else Natural(n / 10) + [(n % 10 + '0' as int) as char]
  }

  /** `%d`. */
  function Decimal(n: int): string { if n < 0 then "-" + Natural(-n) else Natural(n) }

  function ReadNatural(s: string): Read<int> {
    var k := Run(s);
    if k == 0 then NoRead else Read(ValueOf(s[..k]), s[k..])
  }

  function ReadNumber(s: string): Read<int> {
    if s != "" && s[0] == '-' then
      match ReadNatural(s[1..]) case NoRead => NoRead case Read(n, rest) => Read(-n, rest)
    else ReadNatural(s)
  }

  lemma {:induction false} NaturalIsItsValue(n: nat)
    ensures Digits(Natural(n)) && ValueOf(Natural(n)) == n && Natural(n) != ""
  {
    var s := Natural(n);
    if n >= 10 {
      NaturalIsItsValue(n / 10);
      assert s[..|s| - 1] == Natural(n / 10);
    } else {
      assert s[..0] == "";
    }
  }

  lemma NaturalReadBack(n: nat, rest: string)
    requires rest != "" && !Digit(rest[0])
    ensures ReadNatural(Natural(n) + rest) == Read(n as int, rest)
    ensures Natural(n) != "" && Natural(n)[0] != '-'
  {
    NaturalIsItsValue(n);
    var digits := Natural(n);
    RunRead(digits, rest);
    hide Natural, Run;
    assert (digits + rest)[..|digits|] == digits;
  }

  lemma NumberReadBack(n: int, rest: string)
    requires rest != "" && !Digit(rest[0])
    ensures ReadNumber(Decimal(n) + rest) == Read(n, rest)
  {
    hide Natural, ReadNatural;
    if n < 0 {
      NaturalReadBack(-n, rest);
      assert Decimal(n) + rest == "-" + (Natural(-n) + rest);
      assert (Decimal(n) + rest)[1..] == Natural(-n) + rest;
    } else {
      NaturalReadBack(n, rest);
      assert (Natural(n) + rest)[0] == Natural(n)[0];
    }
  }

  /* ---- a line of pieces ---- */

  datatype Piece = Lit(s: string) | Str(s: string) | Num(n: int) | Null

  function TextOf(p: Piece): string {
    match p
    case Lit(s) => s
    case Str(s) => Quoted(s)
    case Num(n) => Decimal(n)
    case Null => "null"
  }

  function Cat(pieces: seq<Piece>): string {
    if pieces == [] then "" else TextOf(pieces[0]) + Cat(pieces[1..])
  }

  datatype Slot = Fixed(s: string) | AString | ANumber | AStringOrNull

  predicate Fills(p: Piece, slot: Slot) {
    match slot
    case Fixed(s) => p == Lit(s)
    case AString => p.Str?
    case ANumber => p.Num?
    case AStringOrNull => p.Str? || p.Null?
  }

  function ReadLiteral(s: string, literal: string, p: Piece): Read<Piece> {
    if literal <= s then Read(p, s[|literal|..]) else NoRead
  }

  function ReadSlot(s: string, slot: Slot): Read<Piece> {
    match slot
    case Fixed(literal) => ReadLiteral(s, literal, Lit(literal))
    case ANumber => (match ReadNumber(s) case NoRead => NoRead case Read(n, rest) => Read(Num(n), rest))
    case AString => ReadStr(s)
    case AStringOrNull => if s != "" && s[0] == '"' then ReadStr(s) else ReadLiteral(s, "null", Null)
  }

  function ReadStr(s: string): Read<Piece> {
    match ReadString(s) case NoRead => NoRead case Read(t, rest) => Read(Str(t), rest)
  }

  function ReadSlots(s: string, slots: seq<Slot>): Option<seq<Piece>>
    decreases |slots|
  {
    if slots == [] then (if s == "" then Some([]) else None)
    else match ReadSlot(s, slots[0])
      case NoRead => None
      case Read(p, rest) =>
        match ReadSlots(rest, slots[1..])
        case None => None
        case Some(ps) => Some([p] + ps)
  }

  /** A number is followed by text that does not go on with digits. */
  predicate Ended(pieces: seq<Piece>) {
    forall i :: 0 <= i < |pieces| && pieces[i].Num? ==>
      i + 1 < |pieces| && pieces[i + 1].Lit? && pieces[i + 1].s != "" && !Digit(pieces[i + 1].s[0])
  }

  predicate FillAll(pieces: seq<Piece>, slots: seq<Slot>) {
    |pieces| == |slots| && forall i :: 0 <= i < |pieces| ==> Fills(pieces[i], slots[i])
  }

  lemma PieceReadBack(p: Piece, slot: Slot, rest: string)
    requires Fills(p, slot) && (p.Num? ==> rest != "" && !Digit(rest[0]))
    ensures ReadSlot(TextOf(p) + rest, slot) == Read(p, rest)
  {
    hide ReadNumber, ReadString, Decimal;
    match p
    case Lit(s) => assert (s + rest)[|s|..] == rest;
    case Str(s) => QuotedReadBack(s, rest); assert (Quoted(s) + rest)[0] == '"';
    case Num(n) => NumberReadBack(n, rest);
    case Null => assert ("null" + rest)[4..] == rest;
  }

  lemma {:induction false} PiecesReadBack(pieces: seq<Piece>, slots: seq<Slot>)
    requires FillAll(pieces, slots) && Ended(pieces)
    ensures ReadSlots(Cat(pieces), slots) == Some(pieces)
    decreases |pieces|
  {
    if pieces != [] {
      var p, more := pieces[0], pieces[1..];
      if p.Num? {
        assert Cat(more) == more[0].s + Cat(more[1..]);
      }
      PieceReadBack(p, slots[0], Cat(more));
      hide ReadSlot, TextOf;
      assert forall i :: 0 <= i < |more| ==> more[i] == pieces[i + 1] && slots[1..][i] == slots[i + 1];
      PiecesReadBack(more, slots[1..]);
      assert [p] + more == pieces;
    }
  }

  lemma {:induction false} CatMore(pieces: seq<Piece>, p: Piece)
    ensures Cat(pieces + [p]) == Cat(pieces) + TextOf(p)
    decreases |pieces|
  {
    if pieces == [] {
      assert ([] + [p])[1..] == [] && Cat([]) == "";
      assert TextOf(p) + "" == TextOf(p) == "" + TextOf(p);
      assert [] + [p] == [p] && Cat([p]) == TextOf(p) + Cat([p][1..]);
    } else {
      assert (pieces + [p])[1..] == pieces[1..] + [p];
      CatMore(pieces[1..], p);
    }
  }

  /* ---- diagnostics ---- */

  datatype Severity = Error | Warning | Note

  datatype Code =
    | NoCode | LexError | LexDetail | ParseError | StringLiteral | ServerBlock | WindowBlock | GsqlBlock | RuntimeError

  datatype Span = Span(startLine: int, startColumn: int, endLine: int, endColumn: int)

  datatype Diagnostic = Diagnostic(severity: Severity, code: Code, subcode: int, path: Option<string>, span: Span,
                                   message: Option<string>)

  function SeverityText(s: Severity): string {
    match s case Error => "error" case Warning => "warning" case Note => "note"
  }

  function CodeText(c: Code): string {
    match c
    case NoCode => "GB_DIAG_NONE"
    case LexError => "GB_DIAG_LEX_ERROR"
    case LexDetail => "GB_DIAG_LEX_DETAIL"
    case ParseError => "GB_DIAG_PARSE_ERROR"
    case StringLiteral => "GB_DIAG_STRING_LITERAL"
    case ServerBlock => "GB_DIAG_SERVER_BLOCK"
    case WindowBlock => "GB_DIAG_WINDOW_BLOCK"
    case GsqlBlock => "GB_DIAG_GSQL_BLOCK"
    case RuntimeError => "GB_DIAG_RUNTIME_ERROR"
  }

  function SeverityNamed(s: string): Option<Severity> {
    if s == "error" then Some(Error) else if s == "warning" then Some(Warning)
    else if s == "note" then Some(Note) else None
  }

  function CodeNamed(s: string): Option<Code> {
    if s == "GB_DIAG_NONE" then Some(NoCode)
    else if s == "GB_DIAG_LEX_ERROR" then Some(LexError)
    else if s == "GB_DIAG_LEX_DETAIL" then Some(LexDetail)
    else if s == "GB_DIAG_PARSE_ERROR" then Some(ParseError)
    else if s == "GB_DIAG_STRING_LITERAL" then Some(StringLiteral)
    else if s == "GB_DIAG_SERVER_BLOCK" then Some(ServerBlock)
    else if s == "GB_DIAG_WINDOW_BLOCK" then Some(WindowBlock)
    else if s == "GB_DIAG_GSQL_BLOCK" then Some(GsqlBlock)
    else if s == "GB_DIAG_RUNTIME_ERROR" then Some(RuntimeError)
    else None
  }

  /** The text of a message that is missing is empty. */
  function Message(d: Diagnostic): string { match d.message case None => "" case Some(m) => m }

  /** The line up to the path, and from there on. */
  function Front(d: Diagnostic): seq<Piece> {
    [Lit("{\"severity\":"), Str(SeverityText(d.severity)), Lit(",\"code\":"), Str(CodeText(d.code)),
     Lit(",\"subcode\":"), Num(d.subcode), Lit(",\"path\":"), match d.path case None => Null case Some(p) => Str(p)]
  }

  function Back(d: Diagnostic): seq<Piece> {
    [Lit(",\"start\":{\"line\":"), Num(d.span.startLine), Lit(",\"column\":"), Num(d.span.startColumn),
     Lit("},\"end\":{\"line\":"), Num(d.span.endLine), Lit(",\"column\":"), Num(d.span.endColumn),
     Lit("},\"message\":"), Str(Message(d)), Lit("}\n")]
  }

  function Pieces(d: Diagnostic): seq<Piece> { Front(d) + Back(d) }

  const FRONT: seq<Slot> :=
    [Fixed("{\"severity\":"), AString, Fixed(",\"code\":"), AString,
     Fixed(",\"subcode\":"), ANumber, Fixed(",\"path\":"), AStringOrNull]

  const BACK: seq<Slot> :=
    [Fixed(",\"start\":{\"line\":"), ANumber, Fixed(",\"column\":"), ANumber,
     Fixed("},\"end\":{\"line\":"), ANumber, Fixed(",\"column\":"), ANumber,
     Fixed("},\"message\":"), AString, Fixed("}\n")]

  const SLOTS: seq<Slot> := FRONT + BACK

  lemma FrontFits(d: Diagnostic)
    ensures FillAll(Front(d), FRONT) && Ended(Front(d))
  {
  }

  lemma BackFits(d: Diagnostic)
    ensures FillAll(Back(d), BACK) && Ended(Back(d))
  {
  }

  lemma FitsTogether(a: seq<Piece>, b: seq<Piece>, slotsA: seq<Slot>, slotsB: seq<Slot>)
    requires FillAll(a, slotsA) && Ended(a) && FillAll(b, slotsB) && Ended(b)
    ensures FillAll(a + b, slotsA + slotsB) && Ended(a + b)
  {
    hide Fills;
    var all := a + b;
    forall i | 0 <= i < |all| && all[i].Num?
      ensures i + 1 < |all| && all[i + 1].Lit? && all[i + 1].s != "" && !Digit(all[i + 1].s[0])
    {
      if i < |a| {
        assert all[i] == a[i] && all[i + 1] == a[i + 1];
      } else {
        assert all[i] == b[i - |a|] && all[i + 1] == b[i - |a| + 1];
      }
    }
  }

  lemma PiecesFit(d: Diagnostic)
    ensures FillAll(Pieces(d), SLOTS) && Ended(Pieces(d))
  {
    FrontFits(d);
    BackFits(d);
    FitsTogether(Front(d), Back(d), FRONT, BACK);
  }

  /** A reader of one line. */
  function ReadDiagnostic(line: string): Option<Diagnostic> {
    match ReadSlots(line, SLOTS)
    case None => None
    case Some(ps) =>
      if |ps| != 19 || !ps[1].Str? || !ps[3].Str? || !ps[5].Num? || !(ps[7].Null? || ps[7].Str?) || !ps[9].Num?
         || !ps[11].Num? || !ps[13].Num? || !ps[15].Num? || !ps[17].Str? then None
      else match SeverityNamed(ps[1].s)
        case None => None
        case Some(severity) =>
          match CodeNamed(ps[3].s)
          case None => None
          case Some(code) =>
            Some(Diagnostic(severity, code, ps[5].n, if ps[7].Null? then None else Some(ps[7].s),
                            Span(ps[9].n, ps[11].n, ps[13].n, ps[15].n), Some(ps[17].s)))
  }

  lemma CodeReadBack(c: Code)
    ensures CodeNamed(CodeText(c)) == Some(c)
  {
    forall a: Code | a != c ensures CodeText(a) != CodeText(c) {
      CodesDiffer(a, c);
    }
  }

  lemma CodesDiffer(a: Code, b: Code)
    requires a != b
    ensures CodeText(a) != CodeText(b)
  {
  }

  /** What is written for a diagnostic is read back as that diagnostic. */
  lemma DiagnosticReadBack(d: Diagnostic)
    ensures ReadDiagnostic(Cat(Pieces(d))) == Some(d.(message := Some(Message(d))))
  {
    hide ReadSlots, Cat, CodeNamed, CodeText, FillAll, Ended;
    PiecesFit(d);
    PiecesReadBack(Pieces(d), SLOTS);
    CodeReadBack(d.code);
  }

  lemma {:induction false} NaturalIsPrintable(n: nat)
    ensures Printable(Natural(n))
  {
    if n >= 10 {
      NaturalIsPrintable(n / 10);
    }
  }

  lemma {:induction false} CatIsPrintable(pieces: seq<Piece>)
    requires forall i :: 0 <= i < |pieces| && pieces[i].Lit? ==> Printable(pieces[i].s)
    ensures Printable(Cat(pieces))
  {
    if pieces != [] {
      CatIsPrintable(pieces[1..]);
      match pieces[0]
      case Lit(_) =>
      case Str(s) => QuotedIsPrintable(s);
      case Num(n) => NaturalIsPrintable(if n < 0 then -n else n);
      case Null =>
    }
  }

  /** A diagnostic is one line: its only line end is its last byte. */
  lemma DiagnosticIsOneLine(d: Diagnostic)
    ensures var t := Cat(Pieces(d)); |t| > 0 && t[|t| - 1] == '\n' && Printable(t[..|t| - 1])
  {
    FrontIsPrintable(d);
    MostIsPrintable(d);
    BackSplits(d);
    hide Cat, Front, ButLast, Back, Printable;
    CatIsPrintable(Front(d));
    CatIsPrintable(ButLast(d));
    CatLine(Front(d), ButLast(d));
    PrintableLine(Cat(Front(d)), Cat(ButLast(d)));
  }

  lemma BackSplits(d: Diagnostic)
    ensures Back(d) == ButLast(d) + [Lit("}\n")]
  {
  }

  lemma CatLine(a: seq<Piece>, b: seq<Piece>)
    ensures Cat(a + (b + [Lit("}\n")])) == Cat(a) + Cat(b) + "}\n"
  {
    hide Cat;
    CatJoins(a, b + [Lit("}\n")]);
    CatMore(b, Lit("}\n"));
  }

  lemma PrintableLine(a: string, b: string)
    requires Printable(a) && Printable(b)
    ensures var t := a + b + "}\n"; t[|t| - 1] == '\n' && Printable(t[..|t| - 1])
  {
    var t := a + b + "}\n";
    assert t[..|t| - 1] == a + b + "}";
  }

  function ButLast(d: Diagnostic): seq<Piece> { Back(d)[..10] }

  lemma FrontIsPrintable(d: Diagnostic)
    ensures var ps := Front(d); forall i :: 0 <= i < |ps| && ps[i].Lit? ==> Printable(ps[i].s)
  {
  }

  lemma MostIsPrintable(d: Diagnostic)
    ensures var ps := ButLast(d); forall i :: 0 <= i < |ps| && ps[i].Lit? ==> Printable(ps[i].s)
  {
  }

  /* ---- writing ---- */

  class Out {
    var text: string

    method Puts(s: string)
      modifies this
      ensures text == old(text) + s
    {
      text := text + s;
    }

    /** `json_escape`: byte by byte. */
    method JsonEscape(s: string)
      modifies this
      ensures text == old(text) + Quoted(s)
    {
      hide EscapedAll, Escaped;
      Puts("\"");
      EscapedNone(s);
      var p := 0;
      while p < |s|
        invariant 0 <= p <= |s|
        invariant text == old(text) + "\"" + EscapedAll(s[..p])
      {
        EscapedMore(s, p);
        EscapeOne(s[p]);
        p := p + 1;
      }
      Puts("\"");
      EscapedNone(s);
    }

    method EscapeOne(c: char)
      modifies this
      ensures text == old(text) + Escaped(c)
    {
      match c
      case '"' => Puts("\\\"");
      case '\\' => Puts("\\\\");
      case '\n' => Puts("\\n");
      case '\r' => Puts("\\r");
      case '\t' => Puts("\\t");
      case _ =>
        if c as int == 8 {
          Puts("\\b");
        } else if c as int == 12 {
          Puts("\\f");
        } else if c < ' ' {
          Puts("\\u00" + [HexDigit(c as int / 16), HexDigit(c as int % 16)]);
        } else {
          Puts([c]);
        }
    }

    /** One piece of the line. */
    method Put(p: Piece, ghost start: string, ghost done: seq<Piece>)
      requires text == start + Cat(done)
      modifies this
      ensures text == start + Cat(done + [p])
    {
      hide Cat, Quoted, Decimal;
      CatMore(done, p);
      match p {
        case Lit(s) => Puts(s);
        case Str(s) => JsonEscape(s);
        case Num(n) => Puts(Decimal(n));
        case Null => Puts("null");
      }
    }

    /** A label and a number. */
    method PutNumber(name: string, n: int, ghost start: string, ghost done: seq<Piece>)
      requires text == start + Cat(done)
      modifies this
      ensures text == start + Cat(done + [Lit(name), Num(n)])
    {
      Put(Lit(name), start, done);
      Put(Num(n), start, done + [Lit(name)]);
      assert done + [Lit(name)] + [Num(n)] == done + [Lit(name), Num(n)];
    }

    method WriteFront(d: Diagnostic)
      modifies this
      ensures text == old(text) + Cat(Front(d))
    {
      hide Cat;
      ghost var start, done := text, [];
      CatNone();
      Put(Lit("{\"severity\":"), start, done);
      done := done + [Lit("{\"severity\":")];
      Put(Str(SeverityText(d.severity)), start, done);
      done := done + [Str(SeverityText(d.severity))];
      Put(Lit(",\"code\":"), start, done);
      done := done + [Lit(",\"code\":")];
      Put(Str(CodeText(d.code)), start, done);
      done := done + [Str(CodeText(d.code))];
      PutNumber(",\"subcode\":", d.subcode, start, done);
      done := done + [Lit(",\"subcode\":"), Num(d.subcode)];
      Put(Lit(",\"path\":"), start, done);
      done := done + [Lit(",\"path\":")];
      var path := match d.path case None => Null case Some(p) => Str(p);
      Put(path, start, done);
      done := done + [path];
      assert done == Front(d);
    }

    method WriteBack(d: Diagnostic)
      modifies this
      ensures text == old(text) + Cat(Back(d))
    {
      hide Cat;
      ghost var start, done := text, [];
      CatNone();
      PutNumber(",\"start\":{\"line\":", d.span.startLine, start, done);
      done := done + [Lit(",\"start\":{\"line\":"), Num(d.span.startLine)];
      PutNumber(",\"column\":", d.span.startColumn, start, done);
      done := done + [Lit(",\"column\":"), Num(d.span.startColumn)];
      PutNumber("},\"end\":{\"line\":", d.span.endLine, start, done);
      done := done + [Lit("},\"end\":{\"line\":"), Num(d.span.endLine)];
      PutNumber(",\"column\":", d.span.endColumn, start, done);
      done := done + [Lit(",\"column\":"), Num(d.span.endColumn)];
      Put(Lit("},\"message\":"), start, done);
      done := done + [Lit("},\"message\":")];
      Put(Str(Message(d)), start, done);
      done := done + [Str(Message(d))];
      Put(Lit("}\n"), start, done);
      done := done + [Lit("}\n")];
      assert done == Back(d);
    }

    /** `gb_diag_write_json`. */
    method WriteJson(d: Diagnostic)
      modifies this
      ensures text == old(text) + Cat(Pieces(d))
    {
      hide Cat, Front, Back;
      WriteFront(d);
      WriteBack(d);
      CatJoins(Front(d), Back(d));
    }
  }

  lemma {:induction false} CatJoins(a: seq<Piece>, b: seq<Piece>)
    ensures Cat(a + b) == Cat(a) + Cat(b)
    decreases |b|
  {
    if b == [] {
      assert a + b == a;
    } else {
      assert a + b == (a + [b[0]]) + b[1..];
      CatJoins(a + [b[0]], b[1..]);
      CatMore(a, b[0]);
    }
  }

  lemma CatNone()
    ensures Cat([]) == ""
  {
  }
}
