/**
  Route paths (`src/frontend.c`, `stdlib/web.bas`): a path is cut at its slashes into segments, each
  static text, a capture `{name}`, or a capture of the rest `{name...}`.  `Parse` follows the checks in
  the order the code makes them; `Legal` and `Written` say what a path should be, and the two agree.
*/
module RoutePaths {
  import opened Chars

  datatype Segment =
    | Static(text: string)
    | Capture(name: string)
    | Rest(name: string)
  {
    function Rank(): int {
      match this case Static(_) => 2 case Capture(_) => 1 case Rest(_) => 0
    }

    predicate Named() { !Static? }

    /** The segment as it stands in a path. */
    function Written(): string {
      match this
      case Static(text) => text
      case Capture(name) => "{" + name + "}"
      case Rest(name) => "{" + name + "..." + "}"
    }
  }

  datatype Problem =
    | NoLeadingSlash
    | TrailingSlash
    | TooManySegments
    | Unclosed(segment: string)
    | BadName(segment: string)
    | RestNotLast(name: string)
    | RepeatedName(name: string)
    | EmptySegment
    | StrayBrace(segment: string)

  datatype Parsed<T> = Ok(value: T) | Bad(problem: Problem)

  const MAX_SEGMENTS := 32

  predicate NameStart(c: char) { Letter(c) || c == '_' }

  predicate NameChar(c: char) { NameStart(c) || Digit(c) }

  /** `srv_ident_span`, `_is_name`. */
  predicate IsName(s: string) {
    s != [] && NameStart(s[0]) && forall i :: 1 <= i < |s| ==> NameChar(s[i])
  }

  /** One segment of a path, `_segment_of`. */
  function SegmentOf(text: string): Parsed<Segment> {
    if text != [] && text[0] == '{' then
      if text[|text| - 1] != '}' then Bad(Unclosed(text))
      else
        var body := if |text| >= 2 then text[1..|text| - 1] else [];
        var rest := |body| > 3 && body[|body| - 3..] == "...";
        var name := if rest then body[..|body| - 3] else body;
        if !IsName(name) then Bad(BadName(text)) else Ok(if rest then Rest(name) else Capture(name))
    else if text == [] then Bad(EmptySegment)
    else if '{' in text || '}' in text then Bad(StrayBrace(text))
    else Ok(Static(text))
  }

  /** The bytes before the first slash. */
  function Span(s: string): (n: nat)
    ensures n <= |s| && (forall i :: 0 <= i < n ==> s[i] != '/') && (n < |s| ==> s[n] == '/')
  {
    if s == [] || s[0] == '/' then 0 else 1 + Span(s[1..])
  }

  predicate Names(done: seq<Segment>, name: string) {
    exists i :: 0 <= i < |done| && done[i].Named() && done[i].name == name
  }

  /** What is wrong with a good segment where it stands. */
  function Placed(seg: Segment, last: bool, done: seq<Segment>): Parsed<Segment> {
    if seg.Rest? && !last then Bad(RestNotLast(seg.name))
    else if seg.Named() && Names(done, seg.name) then Bad(RepeatedName(seg.name))
    else Ok(seg)
  }

  function ParseFrom(s: string, done: seq<Segment>): Parsed<seq<Segment>>
    decreases |s|
  {
    var n := Span(s);
    if |done| >= MAX_SEGMENTS then Bad(TooManySegments)
    else match SegmentOf(s[..n])
      case Bad(p) => Bad(p)
      case Ok(seg) =>
        match Placed(seg, n == |s|, done)
        case Bad(p) => Bad(p)
        case Ok(_) =>
          if n == |s| then Ok(done + [seg]) else ParseFrom(s[n + 1..], done + [seg])
  }

  function Parse(path: string): Parsed<seq<Segment>> {
    if path == [] || path[0] != '/' then Bad(NoLeadingSlash)
    else if |path| > 1 && path[|path| - 1] == '/' then Bad(TrailingSlash)
    else if |path| == 1 then Ok([])
    else ParseFrom(path[1..], [])
  }

  /* ---- what a path should be ---- */

  predicate Plain(s: string) {
    forall i :: 0 <= i < |s| ==> s[i] != '/' && s[i] != '{' && s[i] != '}'
  }

  predicate LegalSegment(seg: Segment) {
    match seg
    case Static(text) => text != [] && Plain(text)
    case Capture(name) => IsName(name)
    case Rest(name) => IsName(name)
  }

  predicate RestOnlyLast(segs: seq<Segment>) {
    forall i :: 0 <= i < |segs| - 1 ==> !segs[i].Rest?
  }

  predicate DistinctNames(segs: seq<Segment>) {
    forall i, j :: 0 <= i < j < |segs| && segs[i].Named() && segs[j].Named() ==> segs[i].name != segs[j].name
  }

  predicate Legal(segs: seq<Segment>) {
    (forall i :: 0 <= i < |segs| ==> LegalSegment(segs[i])) && RestOnlyLast(segs) && DistinctNames(segs)
  }

  /** The segments one after the other, each behind a slash. */
  function Slashed(pieces: seq<string>): string {
    if pieces == [] then [] else "/" + pieces[0] + Slashed(pieces[1..])
  }

  function WrittenAll(segs: seq<Segment>): seq<string> {
    seq(|segs|, i requires 0 <= i < |segs| => segs[i].Written())
  }

  function PathOf(segs: seq<Segment>): string {
    if segs == [] then "/" else Slashed(WrittenAll(segs))
  }

  /* ---- a segment is read back from its text, and only from it ---- */

  lemma NamesArePlain(name: string)
    requires IsName(name)
    ensures forall i :: 0 <= i < |name| ==> name[i] != '/' && name[i] != '{' && name[i] != '}' && name[i] != '.'
  {
  }

  lemma SegmentOfCapture(name: string)
    requires IsName(name)
    ensures SegmentOf("{" + name + "}") == Ok(Capture(name))
  {
    var text := "{" + name + "}";
    NamesArePlain(name);
    assert text[1..|text| - 1] == name;
    assert |name| > 3 ==> name[|name| - 3..][2] == name[|name| - 1];
  }

  lemma SegmentOfRest(name: string)
    requires IsName(name)
    ensures SegmentOf("{" + name + "..." + "}") == Ok(Rest(name))
  {
    var text := "{" + name + "..." + "}";
    var body := text[1..|text| - 1];
    assert body == name + "...";
    assert body[|body| - 3..] == "..." && body[..|body| - 3] == name;
  }

  lemma SegmentOfStatic(text: string)
    requires text != [] && Plain(text)
    ensures SegmentOf(text) == Ok(Static(text))
  {
  }

  lemma SegmentIsRead(seg: Segment)
    requires LegalSegment(seg)
    ensures SegmentOf(seg.Written()) == Ok(seg)
    ensures forall i :: 0 <= i < |seg.Written()| ==> seg.Written()[i] != '/'
    ensures seg.Written() != []
  {
    hide SegmentOf, IsName;
    match seg
    case Static(text) => SegmentOfStatic(text);
    case Capture(name) => SegmentOfCapture(name); NamesArePlain(name);
    case Rest(name) => SegmentOfRest(name); NamesArePlain(name);
  }

  lemma SegmentIsLegal(text: string)
    requires SegmentOf(text).Ok? && forall i :: 0 <= i < |text| ==> text[i] != '/'
    ensures LegalSegment(SegmentOf(text).value) && SegmentOf(text).value.Written() == text
  {
    if text[0] == '{' {
      var body := text[1..|text| - 1];
      assert text == "{" + body + "}";
      if |body| > 3 && body[|body| - 3..] == "..." {
        Dotted(body, text);
      }
    }
  }

  lemma Dotted(body: string, text: string)
    requires |body| > 3 && body[|body| - 3..] == "..." && text == "{" + body + "}"
    ensures text == "{" + body[..|body| - 3] + "..." + "}"
  {
    assert body == body[..|body| - 3] + "...";
  }

  /* ---- Parse accepts exactly the legal paths ---- */

  lemma SpanOfPiece(piece: string, more: string)
    requires (forall i :: 0 <= i < |piece| ==> piece[i] != '/') && (more == [] || more[0] == '/')
    ensures Span(piece + more) == |piece|
  {
    var s := piece + more;
    assert forall i :: 0 <= i < |piece| ==> s[i] == piece[i];
    assert more != [] ==> s[|piece|] == more[0];
  }

  /** A legal list split in two: the first segment of the second part is in its place. */
  lemma LegalIsPlaced(done: seq<Segment>, segs: seq<Segment>)
    requires Legal(done + segs) && segs != []
    ensures LegalSegment(segs[0]) && Placed(segs[0], |segs| == 1, done) == Ok(segs[0])
  {
    var all := done + segs;
    assert all[|done|] == segs[0];
    assert forall i :: 0 <= i < |done| ==> all[i] == done[i];
  }

  lemma SlashedStart(pieces: seq<string>)
    requires pieces != []
    ensures Slashed(pieces)[0] == '/' && Slashed(pieces)[1..] == pieces[0] + Slashed(pieces[1..])
  {
    assert Slashed(pieces) == "/" + (pieces[0] + Slashed(pieces[1..]));
  }

  lemma WrittenTail(segs: seq<Segment>)
    requires segs != []
    ensures |WrittenAll(segs)| == |segs| && WrittenAll(segs)[0] == segs[0].Written()
    ensures WrittenAll(segs)[1..] == WrittenAll(segs[1..])
  {
  }

  lemma {:induction false} LegalIsParsed(done: seq<Segment>, segs: seq<Segment>)
    requires Legal(done + segs) && segs != [] && |done + segs| <= MAX_SEGMENTS
    ensures ParseFrom(Slashed(WrittenAll(segs))[1..], done) == Ok(done + segs)
    decreases |segs|
  {
    hide Legal, SegmentOf, Placed, WrittenAll, Span, LegalSegment, Segment.Written;
    var pieces, text := WrittenAll(segs), segs[0].Written();
    WrittenTail(segs);
    SlashedStart(pieces);
    var more := Slashed(pieces[1..]);
    var s := text + more;
    if |segs| > 1 {
      SlashedStart(pieces[1..]);
    }
    hide Slashed;
    LegalIsPlaced(done, segs);
    SegmentIsRead(segs[0]);
    SpanOfPiece(text, more);
    assert s[..|text|] == text && s[|text|..] == more;
    if |segs| == 1 {
      assert segs == [segs[0]];
    } else {
      WrittenTail(segs[1..]);
      assert done + segs == (done + [segs[0]]) + segs[1..];
      assert s[|text| + 1..] == more[1..];
      LegalIsParsed(done + [segs[0]], segs[1..]);
    }
  }

  lemma LegalGrows(done: seq<Segment>, seg: Segment, last: bool)
    requires Legal(done) && (forall i :: 0 <= i < |done| ==> !done[i].Rest?)
    requires LegalSegment(seg) && Placed(seg, last, done).Ok?
    ensures Legal(done + [seg]) && (!last ==> forall i :: 0 <= i < |done + [seg]| ==> !(done + [seg])[i].Rest?)
  {
    var all := done + [seg];
    forall i | 0 <= i < |done| && done[i].Named() && seg.Named() ensures done[i].name != seg.name {
    }
  }

  lemma {:induction false} ParsedIsLegal(s: string, done: seq<Segment>)
    requires Legal(done) && (forall i :: 0 <= i < |done| ==> !done[i].Rest?)
    requires ParseFrom(s, done).Ok?
    ensures var all := ParseFrom(s, done).value;
      && |done| < |all| <= MAX_SEGMENTS && all[..|done|] == done && Legal(all)
      && "/" + s == Slashed(WrittenAll(all[|done|..]))
    decreases |s|
  {
    hide Legal, SegmentOf, Placed, LegalSegment, Segment.Written, Slashed, WrittenAll;
    var n := Span(s);
    var seg := SegmentOf(s[..n]).value;
    SegmentIsLegal(s[..n]);
    LegalGrows(done, seg, n == |s|);
    var all := ParseFrom(s, done).value;
    if n == |s| {
      assert all[|done|..] == [seg] && s[..n] == s;
      OneSlashed(seg);
    } else {
      ParsedIsLegal(s[n + 1..], done + [seg]);
      Resplit(all, done, seg);
      assert s == s[..n] + ("/" + s[n + 1..]);
      Prepend(seg, s[n + 1..], all[|done| + 1..]);
    }
  }

  lemma Resplit<T>(all: seq<T>, done: seq<T>, x: T)
    requires |done| < |all| && all[..|done| + 1] == done + [x]
    ensures all[..|done|] == done && all[|done|..] == [x] + all[|done| + 1..]
  {
    assert all[..|done|] == all[..|done| + 1][..|done|];
    assert all[|done|] == all[..|done| + 1][|done|];
  }

  lemma OneSlashed(seg: Segment)
    ensures Slashed(WrittenAll([seg])) == "/" + seg.Written()
  {
    WrittenTail([seg]);
    assert "/" + seg.Written() + [] == "/" + seg.Written();
  }

  lemma Prepend(seg: Segment, more: string, later: seq<Segment>)
    requires "/" + more == Slashed(WrittenAll(later))
    ensures "/" + (seg.Written() + ("/" + more)) == Slashed(WrittenAll([seg] + later))
  {
    var all := [seg] + later;
    WrittenTail(all);
    assert all[1..] == later;
    assert "/" + seg.Written() + Slashed(WrittenAll(later)) == "/" + (seg.Written() + Slashed(WrittenAll(later)));
  }

  lemma LastOfSlashed(pieces: seq<string>)
    requires pieces != [] && forall i :: 0 <= i < |pieces| ==> pieces[i] != [] && pieces[i][|pieces[i]| - 1] != '/'
    ensures var t := Slashed(pieces); |t| > 1 && t[0] == '/' && t[|t| - 1] != '/'
  {
    if |pieces| > 1 {
      LastOfSlashed(pieces[1..]);
    }
  }

  lemma ParsedIsSpelled(path: string)
    requires Parse(path).Ok?
    ensures var segs := Parse(path).value; Legal(segs) && |segs| <= MAX_SEGMENTS && path == PathOf(segs)
  {
    if |path| > 1 {
      ParsedIsLegal(path[1..], []);
      var segs := Parse(path).value;
      hide ParseFrom, Legal, Slashed;
      assert segs[0..] == segs;
      assert path == "/" + path[1..];
    }
  }

  lemma SpelledIsParsed(segs: seq<Segment>)
    requires Legal(segs) && |segs| <= MAX_SEGMENTS
    ensures Parse(PathOf(segs)) == Ok(segs)
  {
    if segs != [] {
      var pieces := WrittenAll(segs);
      forall i | 0 <= i < |pieces| ensures pieces[i] != [] && pieces[i][|pieces[i]| - 1] != '/' {
        SegmentIsRead(segs[i]);
      }
      LastOfSlashed(pieces);
      assert [] + segs == segs;
      LegalIsParsed([], segs);
    }
  }

  /** A path is accepted exactly when it is what some legal segments spell, and then as those segments.
      So no accepted path has two readings, and no legal route is refused. */
  lemma ParsedIffSpelled(path: string, segs: seq<Segment>)
    ensures Parse(path) == Ok(segs) <==> Legal(segs) && |segs| <= MAX_SEGMENTS && path == PathOf(segs)
  {
    hide Parse, Legal, PathOf;
    if Parse(path) == Ok(segs) {
      ParsedIsSpelled(path);
    } else if Legal(segs) && |segs| <= MAX_SEGMENTS {
      SpelledIsParsed(segs);
    }
  }
}
