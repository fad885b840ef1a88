/** Which errors the load-time check of a scope reports (`src/frontend.c`), one by one, and what is wrong with a path. */
module ServerReports {
  import opened Wrappers
  import opened RoutePaths
  import opened RouteOrder
  import opened ServerScope

  // ----- what is wrong with a path -----

  /** The segments as they stand, each before a slash. */
  function Before(segs: seq<Segment>): string {
    if segs == [] then [] else segs[0].Written() + "/" + Before(segs[1..])
  }

  ghost predicate NoRest(segs: seq<Segment>) { forall i :: 0 <= i < |segs| ==> !segs[i].Rest? }

  /** `piece` is how some capture is spelled. */
  ghost predicate SpellsCapture(piece: string) {
    exists seg: Segment :: seg.Named() && LegalSegment(seg) && piece == seg.Written()
  }

  /** What is wrong with a piece where it stands, the ones before it being the segments `done`. */
  ghost predicate WrongHere(done: seq<Segment>, piece: string, last: bool, p: Problem) {
    if |done| >= 32 then p == TooManySegments
    else
      var opens := piece != [] && piece[0] == '{';
      match p
      case EmptySegment => piece == []
      case Unclosed(text) => text == piece && opens && piece[|piece| - 1] != '}'
      case BadName(text) => text == piece && opens && piece[|piece| - 1] == '}' && !SpellsCapture(piece)
      case StrayBrace(text) => text == piece && piece != [] && !opens && ('{' in piece || '}' in piece)
      case RestNotLast(name) => IsName(name) && piece == Rest(name).Written() && !last
      case RepeatedName(name) =>
        && IsName(name) && Names(done, name)
        && (piece == Capture(name).Written() || (piece == Rest(name).Written() && last))
      case _ => false
  }

  /** Good segments up to a piece that is wrong. */
  ghost predicate GoesWrong(s: string, done: seq<Segment>, segs: seq<Segment>, piece: string, tail: string, p: Problem) {
    && Legal(done + segs) && NoRest(done + segs)
    && s == Before(segs) + piece + tail && NoSlash(piece) && (tail == [] || tail[0] == '/')
    && WrongHere(done + segs, piece, tail == [], p)
  }

  lemma SegmentProblem(piece: string, p: Problem)
    requires SegmentOf(piece) == Bad(p) && NoSlash(piece)
    ensures forall done: seq<Segment>, last: bool :: |done| < 32 ==> WrongHere(done, piece, last, p)
  {
    if SpellsCapture(piece) {
      var seg: Segment :| seg.Named() && LegalSegment(seg) && piece == seg.Written();
      SegmentIsRead(seg);
      assert false;
    }
    hide IsName, SpellsCapture;
  }

  lemma PlaceProblem(done: seq<Segment>, piece: string, seg: Segment, last: bool, p: Problem)
    requires SegmentOf(piece) == Ok(seg) && NoSlash(piece) && Placed(seg, last, done) == Bad(p) && |done| < 32
    ensures WrongHere(done, piece, last, p)
  {
    SegmentIsLegal(piece);
    hide SegmentOf, Names;
  }

  lemma WrongNow(s: string, done: seq<Segment>, n: nat, p: Problem)
    requires n <= |s| && NoSlash(s[..n]) && (n < |s| ==> s[n] == '/') && Legal(done) && NoRest(done)
    requires WrongHere(done, s[..n], n == |s|, p)
    ensures GoesWrong(s, done, [], s[..n], s[n..], p)
  {
    hide Legal, NoRest, WrongHere, NoSlash;
    assert done + [] == done;
    assert s == Before([]) + s[..n] + s[n..];
  }

  /** The piece at the front is wrong, or good and then the rest goes wrong. */
  lemma FrontOf(s: string, done: seq<Segment>, p: Problem) returns (wrong: bool, seg: Segment)
    requires ParseFrom(s, done) == Bad(p) && Legal(done) && NoRest(done)
    ensures var n := Span(s);
      && NoSlash(s[..n])
      && (wrong ==> WrongHere(done, s[..n], n == |s|, p))
      && (!wrong ==>
           && n < |s| && ParseFrom(s[n + 1..], done + [seg]) == Bad(p)
           && Legal(done + [seg]) && NoRest(done + [seg]) && s == seg.Written() + "/" + s[n + 1..])
  {
    hide Legal, SegmentOf, Placed, WrongHere, LegalSegment, Segment.Written;
    var n := Span(s);
    var piece := s[..n];
    assert NoSlash(piece);
    seg := Static(piece);
    wrong := true;
    if |done| >= MAX_SEGMENTS {
      TooMany(done, piece, n == |s|);
    } else if SegmentOf(piece).Bad? {
      SegmentProblem(piece, p);
    } else {
      seg := SegmentOf(piece).value;
      if Placed(seg, n == |s|, done).Bad? {
        PlaceProblem(done, piece, seg, n == |s|, p);
      } else {
        wrong := false;
        SegmentIsLegal(piece);
        LegalGrows(done, seg, n == |s|);
        assert s == piece + "/" + s[n + 1..];
      }
    }
  }

  lemma TooMany(done: seq<Segment>, piece: string, last: bool)
    requires |done| >= MAX_SEGMENTS
    ensures WrongHere(done, piece, last, TooManySegments)
  {
  }

  lemma {:induction false} FirstProblem(s: string, done: seq<Segment>, p: Problem)
    returns (segs: seq<Segment>, piece: string, tail: string)
    requires ParseFrom(s, done) == Bad(p) && Legal(done) && NoRest(done)
    ensures GoesWrong(s, done, segs, piece, tail, p)
    decreases |s|
  {
    hide *;
    var n := Span(s);
    var wrong, seg := FrontOf(s, done, p);
    if wrong {
      segs, piece, tail := [], s[..n], s[n..];
      WrongNow(s, done, n, p);
    } else {
      segs, piece, tail := FirstProblem(s[n + 1..], done + [seg], p);
      GoesWrongLater(s, done, seg, s[n + 1..], segs, piece, tail, p);
      segs := [seg] + segs;
    }
  }

  lemma GoesWrongLater(s: string, done: seq<Segment>, seg: Segment, next: string, more: seq<Segment>, piece: string,
                       tail: string, p: Problem)
    requires GoesWrong(next, done + [seg], more, piece, tail, p) && s == seg.Written() + "/" + next
    ensures GoesWrong(s, done, [seg] + more, piece, tail, p)
  {
    hide Legal, NoRest, WrongHere, Segment.Written;
    assert done + [seg] + more == done + ([seg] + more);
    assert ([seg] + more)[1..] == more;
    assert s == Before([seg] + more) + piece + tail;
  }

  /** The problem reported is the first one met from the left, and it is there. */
  lemma ProblemIs(path: string, p: Problem) returns (segs: seq<Segment>, piece: string, tail: string)
    requires Parse(path) == Bad(p)
    ensures p == NoLeadingSlash <==> path == [] || path[0] != '/'
    ensures p == TrailingSlash <==> |path| > 1 && path[0] == '/' && path[|path| - 1] == '/'
    ensures p != NoLeadingSlash && p != TrailingSlash ==> |path| > 1 && GoesWrong(path[1..], [], segs, piece, tail, p)
  {
    segs, piece, tail := [], [], [];
    if |path| > 1 && path[0] == '/' && path[|path| - 1] != '/' {
      segs, piece, tail := FirstProblem(path[1..], [], p);
      hide Legal, NoRest, Before;
    }
  }

  // ----- which errors a scope is given -----

  /** Two handlers answer one method: `stream` is a GET. */
  predicate SameMethod(a: string, b: string) {
    a == b || (a == "get" && b == "stream") || (a == "stream" && b == "get")
  }

  lemma VerbOfIs(a: string, b: string)
    ensures VerbOf(a) == VerbOf(b) <==> SameMethod(a, b)
  {
  }

  /** A stream and a get of one shape collide, whichever comes first. */
  lemma StreamCollidesWithGet(stream: Item, get: Item)
    requires stream.Handler? && get.Handler? && stream.word == "stream" && get.word == "get"
    requires Parse(stream.path).Ok? && Parse(get.path).Ok? && SameShape(Parse(stream.path).value, Parse(get.path).value)
    ensures |Clash(stream, get)| == 1 && |Clash(get, stream)| == 1
  {
  }

  /** An earlier route that answers the same method as `item` and cannot be told from it. */
  ghost predicate Collides(earlier: Item, item: Item) {
    && IsRoute(earlier) && IsRoute(item) && SameMethod(earlier.word, item.word)
    && Parse(earlier.path).Ok? && Parse(item.path).Ok?
    && SameShape(Parse(earlier.path).value, Parse(item.path).value)
  }

  /** What is wrong with an item, the items before it given. */
  ghost predicate Faulty(before: seq<Item>, item: Item, isDefault: bool, r: Refusal) {
    match r
    case NotOneDirectory => item.Directive? && item.word == "root" && item.strings != 1
    case RootTwice => IsRoot(item) && SomeRoot(before)
    case ProxyInSite => item.Directive? && item.word == "trust_proxy" && !isDefault
    case ProxyMissing => item.Directive? && item.word == "trust_proxy" && isDefault && item.strings == 0
    case UnknownDirective(word) => item.Directive? && item.word == word && word != "root" && word != "trust_proxy"
    case UnknownVerb(word) => item.Handler? && item.word == word && word !in VERBS
    case ClosedBy(word, path, close) =>
      IsRoute(item) && item.word == word && item.path == path && item.closeWord == Some(close) && close != word
    case NotOneParameter(word, path) => IsRoute(item) && item.word == word && item.path == path && item.params != 1
    case BadPath(word, path, problem) =>
      IsRoute(item) && item.word == word && item.path == path && Parse(path) == Bad(problem)
    case Duplicate(word, path, first) =>
      && item.Handler? && item.word == word && item.path == path
      && exists e :: e in before && Collides(e, item) && e.path == path && e.at.line == first
    case Indistinct(word, path, other, otherPath) =>
      && item.Handler? && item.word == other && item.path == otherPath
      && exists e :: e in before && Collides(e, item) && e.word == word && e.path == path && path != otherPath
    case SiteInSite => item.Site? && !isDefault
    case HookInSite(word) => item.Hook? && item.word == word && !isDefault
    case UnknownHook(word) => item.Hook? && item.word == word && isDefault && word != "drain"
  }

  lemma {:induction false} RoutedAre(items: seq<Item>, x: Item)
    ensures x in Routed(items) <==> x in items && IsRoute(x)
    decreases |items|
  {
    hide IsRoute;
    if items != [] {
      var n := |items| - 1;
      RoutedAre(items[..n], x);
      assert items == items[..n] + [items[n]];
    }
  }

  lemma {:induction false} ClashesAre(earlier: seq<Item>, item: Item, d: Diagnostic)
    requires item.Handler? && Parse(item.path).Ok? && forall i :: 0 <= i < |earlier| ==> earlier[i].Handler?
    ensures d in Clashes(earlier, item) <==> exists e :: e in earlier && d in Clash(e, item)
    decreases |earlier|
  {
    hide Clash, Parse;
    if earlier != [] {
      var n := |earlier| - 1;
      ClashesAre(earlier[..n], item, d);
      assert earlier == earlier[..n] + [earlier[n]];
    }
  }

  lemma ClashIs(e: Item, item: Item, d: Diagnostic)
    requires IsRoute(e) && IsRoute(item) && Parse(item.path).Ok?
    ensures d in Clash(e, item) <==>
      Collides(e, item) && d == Diagnostic(item.at,
        if e.path == item.path then Duplicate(item.word, item.path, e.at.line)
        else Indistinct(e.word, e.path, item.word, item.path))
  {
    VerbOfIs(e.word, item.word);
    hide Parse, VerbOf;
  }

  lemma ClashesMean(before: seq<Item>, item: Item, d: Diagnostic)
    requires IsRoute(item) && Parse(item.path).Ok?
    ensures d in Clashes(Routed(before), item) <==>
      (d.refusal.Duplicate? || d.refusal.Indistinct?) && d.at == item.at && Faulty(before, item, true, d.refusal)
  {
    hide Parse, Clash, Clashes, Routed, SameShape;
    ClashesAre(Routed(before), item, d);
    forall e: Item ensures e in Routed(before) <==> e in before && IsRoute(e) {
      RoutedAre(before, e);
    }
    forall e: Item | IsRoute(e) ensures d in Clash(e, item) <==>
      Collides(e, item) && d == Diagnostic(item.at,
        if e.path == item.path then Duplicate(item.word, item.path, e.at.line)
        else Indistinct(e.word, e.path, item.word, item.path)) {
      ClashIs(e, item, d);
    }
  }

  lemma ItemReportIs(before: seq<Item>, item: Item, isDefault: bool, d: Diagnostic)
    ensures d in ItemReport(before, item, isDefault) <==> d.at == item.at && Faulty(before, item, isDefault, d.refusal)
  {
    hide Parse, Clashes, Routed, SameShape, SomeRoot;
    if IsRoute(item) && Parse(item.path).Ok? {
      ClashesMean(before, item, d);
    }
  }

  /** Exactly what is wrong is reported, and where: over every scope. */
  lemma {:induction false} ReportedIff(items: seq<Item>, isDefault: bool, d: Diagnostic)
    ensures d in ScopeReport(items, isDefault) <==>
      exists j :: 0 <= j < |items| && d.at == items[j].at && Faulty(items[..j], items[j], isDefault, d.refusal)
    decreases |items|
  {
    hide ItemReport, Faulty;
    if items != [] {
      var n := |items| - 1;
      ReportedIff(items[..n], isDefault, d);
      ItemReportIs(items[..n], items[n], isDefault, d);
      assert forall j :: 0 <= j < n ==> items[..n][j] == items[j] && items[..n][..j] == items[..j];
    }
  }
}
