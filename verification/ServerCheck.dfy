/**
  The load-time check as the code runs it (`src/frontend.c`): a shape is filled in place segment by segment,
  and a scope is walked once, each route held against the routes before it.
*/
module ServerCheck {
  import opened RoutePaths
  import opened RouteOrder
  import opened ServerScope

  /** `SrvShape`: ranks, and segment texts as positions in the path. */
  class SrvShape {
    var path: string
    var count: nat
    const rank: array<int>
    const start: array<nat>
    const length: array<nat>

    ghost predicate Valid()
      reads this
    {
      && rank.Length == start.Length == length.Length == MAX_SEGMENTS
      && start != length && count <= MAX_SEGMENTS
    }

    /** Entry `i` is the segment `seg`. */
    ghost predicate ShowsAt(i: nat, seg: Segment)
      requires Valid() && i < MAX_SEGMENTS
      reads this, rank, start, length
    {
      && rank[i] == seg.Rank() && start[i] + length[i] <= |path|
      && path[start[i]..start[i] + length[i]] == seg.Written()
    }

    ghost predicate Shows(segs: seq<Segment>)
      reads this, rank, start, length
    {
      Valid() && count == |segs| && forall i :: 0 <= i < count ==> ShowsAt(i, segs[i])
    }

    constructor ()
      ensures Valid() && count == 0 && fresh(rank) && fresh(start) && fresh(length)
    {
      path, count := "", 0;
      rank := new int[MAX_SEGMENTS];
      start := new nat[MAX_SEGMENTS];
      length := new nat[MAX_SEGMENTS];
    }

    method Put(text: string, at: nat, r: int, ghost done: seq<Segment>, ghost seg: Segment)
      requires Shows(done) && count < MAX_SEGMENTS && at + |text| <= |path|
      requires path[at..at + |text|] == text == seg.Written() && r == seg.Rank()
      modifies this`count, rank, start, length
      ensures Shows(done + [seg])
    {
      start[count] := at;
      length[count] := |text|;
      rank[count] := r;
      count := count + 1;
      ghost var segs := done + [seg];
      forall i | 0 <= i < count ensures ShowsAt(i, segs[i]) {
        if i < count - 1 {
          assert old(ShowsAt(i, done[i]));
        }
      }
    }
  }

  /** `srv_same_shape`. */
  method SameShapes(a: SrvShape, b: SrvShape, ghost sa: seq<Segment>, ghost sb: seq<Segment>) returns (same: bool)
    requires a.Shows(sa) && b.Shows(sb) && Legal(sa) && Legal(sb)
    ensures same == SameShape(sa, sb)
  {
    hide Legal, SameShape, Segment.Written;
    SameShapeIsByEntry(sa, sb);
    if a.count != b.count {
      return false;
    }
    var i := 0;
    while i < a.count
      invariant 0 <= i <= a.count == b.count
      invariant forall k :: 0 <= k < i ==> SameEntry(sa[k], sb[k])
    {
      assert a.ShowsAt(i, sa[i]) && b.ShowsAt(i, sb[i]);
      if a.rank[i] != b.rank[i] {
        return false;
      }
      if a.rank[i] == 2 {
        StaticText(sa[i], sb[i]);
        if a.length[i] != b.length[i]
           || a.path[a.start[i]..a.start[i] + a.length[i]] != b.path[b.start[i]..b.start[i] + b.length[i]] {
          return false;
        }
      }
      i := i + 1;
    }
    return true;
  }

  predicate SameEntry(x: Segment, y: Segment) {
    x.Rank() == y.Rank() && (x.Rank() == 2 ==> x.Written() == y.Written())
  }

  lemma StaticText(x: Segment, y: Segment)
    requires x.Rank() == 2 && y.Rank() == 2
    ensures x.Written() == x.text && y.Written() == y.text
  {
  }

  lemma SameShapeIsByEntry(a: seq<Segment>, b: seq<Segment>)
    ensures SameShape(a, b) <==> |a| == |b| && forall k :: 0 <= k < |a| ==> SameEntry(a[k], b[k])
  {
    if |a| == |b| {
      forall k | 0 <= k < |a|
        ensures SameEntry(a[k], b[k]) <==> a[k].Rank() == b[k].Rank() && (a[k].Static? ==> a[k].text == b[k].text)
      {
      }
    }
  }

  /** `srv_ident_span`. */
  method IdentSpan(s: string) returns (ok: bool)
    ensures ok == IsName(s)
  {
    if |s| == 0 || !NameStart(s[0]) {
      return false;
    }
    for i := 1 to |s|
      invariant forall k :: 1 <= k < i ==> NameChar(s[k])
    {
      if !NameChar(s[i]) {
        return false;
      }
    }
    return true;
  }

  /** What `srv_shape_path` makes of one segment's text. */
  method ReadSegment(text: string) returns (r: Parsed<Segment>)
    ensures r == SegmentOf(text)
  {
    if |text| > 0 && text[0] == '{' {
      if text[|text| - 1] != '}' {
        return Bad(Unclosed(text));
      }
      var name, rest := text[1..|text| - 1], false;
      if |name| > 3 && name[|name| - 3..] == "..." {
        name, rest := name[..|name| - 3], true;
      }
      var ok := IdentSpan(name);
      return if !ok then Bad(BadName(text)) else Ok(if rest then Rest(name) else Capture(name));
    } else if |text| == 0 {
      return Bad(EmptySegment);
    } else if '{' in text || '}' in text {
      return Bad(StrayBrace(text));
    }
    return Ok(Static(text));
  }

  /** Whether a capture name was seen before. */
  method Seen(names: seq<string>, name: string) returns (seen: bool)
    ensures seen == (name in names)
  {
    for i := 0 to |names|
      invariant name !in names[..i]
    {
      if names[i] == name {
        return true;
      }
    }
    return false;
  }

  /** `SrvCheck`: the diagnostics written so far. */
  class SrvCheck {
    var diags: seq<Diagnostic>
    var errors: nat

    constructor ()
      ensures diags == [] && errors == 0
    {
      diags, errors := [], 0;
    }

    /** `more` was reported since the diagnostics were `was`, and counted. */
    ghost predicate Told(was: seq<Diagnostic>, count: nat, more: seq<Diagnostic>)
      reads this
    {
      diags == was + more && errors == count + |more|
    }

    /** `srv_error`. */
    method Error(at: Spot, refusal: Refusal)
      modifies this
      ensures Told(old(diags), old(errors), [Diagnostic(at, refusal)])
    {
      diags := diags + [Diagnostic(at, refusal)];
      errors := errors + 1;
    }

    /** One good segment: refused where it stands, or put into the shape. */
    method PlaceSegment(item: Item, shape: SrvShape, p: nat, text: string, seg: Segment, last: bool,
                        names: seq<string>, ghost done: seq<Segment>) returns (ok: bool, names': seq<string>)
      requires item.Handler? && shape.Shows(done) && shape.count == |done| < MAX_SEGMENTS
      requires p + |text| <= |shape.path| && shape.path[p..p + |text|] == text == seg.Written()
      requires forall n :: n in names <==> Names(done, n)
      modifies this, shape`count, shape.rank, shape.start, shape.length
      ensures ok == Placed(seg, last, done).Ok?
      ensures ok ==> shape.Shows(done + [seg]) && shape.count == |done| + 1
      ensures ok ==> diags == old(diags) && errors == old(errors)
      ensures ok ==> forall n :: n in names' <==> Names(done + [seg], n)
      ensures !ok ==> Told(old(diags), old(errors),
                           [Diagnostic(item.at, BadPath(item.word, item.path, Placed(seg, last, done).problem))])
    {
      names' := names;
      if !seg.Static? {
        if seg.Rest? && !last {
          Error(item.at, BadPath(item.word, item.path, RestNotLast(seg.name)));
          return false, names;
        }
        var seen := Seen(names, seg.name);
        if seen {
          Error(item.at, BadPath(item.word, item.path, RepeatedName(seg.name)));
          return false, names;
        }
        names' := names + [seg.name];
      }
      NamesGrow(done, seg);
      var rank := match seg case Static(_) => 2 case Capture(_) => 1 case Rest(_) => 0;
      shape.Put(text, p, rank, done, seg);
      ok := true;
    }

    /** `srv_shape_path`: the shape of one handler's path, or one report of what is wrong with it. */
    method ShapePath(item: Item, shape: SrvShape) returns (ok: bool)
      requires item.Handler? && shape.Valid()
      modifies this, shape, shape.rank, shape.start, shape.length
      ensures ok == Parse(item.path).Ok?
      ensures ok ==> shape.Shows(Parse(item.path).value) && diags == old(diags) && errors == old(errors)
      ensures !ok ==> Told(old(diags), old(errors),
                           [Diagnostic(item.at, BadPath(item.word, item.path, Parse(item.path).problem))])
    {
      hide SegmentOf, Placed, Names, ParseFrom, SrvShape.Shows, SrvShape.ShowsAt, Segment.Written;
      var path := item.path;
      shape.path, shape.count := path, 0;
      ShowsNone(shape);
      if path == "" || path[0] != '/' {
        Error(item.at, BadPath(item.word, path, NoLeadingSlash));
        return false;
      }
      if |path| > 1 && path[|path| - 1] == '/' {
        Error(item.at, BadPath(item.word, path, TrailingSlash));
        return false;
      }
      if |path| == 1 {
        return true;
      }
      var names: seq<string> := [];
      ghost var done: seq<Segment> := [];
      NoNames();
      var p := 1;
      while true
        invariant 1 <= p <= |path| && shape.path == path && shape.Shows(done) && shape.count == |done|
        invariant Parse(path) == ParseFrom(path[p..], done)
        invariant forall n :: n in names <==> Names(done, n)
        invariant diags == old(diags) && errors == old(errors)
        decreases |path| - p
      {
        var n := Span(path[p..]);
        var text := path[p..p + n];
        assert path[p..][..n] == text;
        ParseOnce(path[p..], done);
        if shape.count >= MAX_SEGMENTS {
          Error(item.at, BadPath(item.word, path, TooManySegments));
          return false;
        }
        var read := ReadSegment(text);
        if read.Bad? {
          Error(item.at, BadPath(item.word, path, read.problem));
          return false;
        }
        var seg, last := read.value, n == |path[p..]|;
        ReadIsWritten(path[p..], n);
        ok, names := PlaceSegment(item, shape, p, text, seg, last, names, done);
        if !ok {
          return;
        }
        if last {
          assert path[p..][..n] == path[p..];
          return true;
        }
        done := done + [seg];
        assert path[p..][n + 1..] == path[p + n + 1..];
        p := p + n + 1;
      }
    }

    /** The duplicate check between two routes. */
    method CheckTie(item: Item, shape: SrvShape, earlier: Item, itsShape: SrvShape, ok: bool)
      requires item.Handler? && Parse(item.path).Ok? && shape.Shows(Parse(item.path).value)
      requires Recorded(earlier, itsShape, ok)
      modifies this
      ensures Told(old(diags), old(errors), Clash(earlier, item))
    {
      hide Parse, SameShape, Legal, SrvShape.Shows;
      if ok && VerbOf(earlier.word) == VerbOf(item.word) {
        ParsedIsSpelled(item.path);
        ParsedIsSpelled(earlier.path);
        var same := SameShapes(itsShape, shape, Parse(earlier.path).value, Parse(item.path).value);
        if earlier.path == item.path {
          Error(item.at, Duplicate(item.word, item.path, earlier.at.line));
        } else if same {
          Error(item.at, Indistinct(earlier.word, earlier.path, item.word, item.path));
        }
      }
    }

    /** The duplicate check for one route against those before it. */
    method CheckTies(item: Item, shape: SrvShape, routed: seq<Item>, shapes: seq<SrvShape>, ok: seq<bool>)
      requires item.Handler? && Parse(item.path).Ok? && shape.Shows(Parse(item.path).value)
      requires AllRecorded(routed, shapes, ok)
      modifies this
      ensures forall j :: 0 <= j < |routed| ==> routed[j].Handler?
      ensures Told(old(diags), old(errors), Clashes(routed, item))
    {
      hide Parse, SrvShape.Shows, Clash;
      assert forall j :: 0 <= j < |routed| ==> Recorded(routed[j], shapes[j], ok[j]) && routed[j].Handler?;
      hide Recorded;
      var j := 0;
      assert routed[..0] == [];
      NothingTold();
      while j < |routed|
        invariant 0 <= j <= |routed|
        invariant shape.Shows(Parse(item.path).value) && AllRecorded(routed, shapes, ok)
        invariant Told(old(diags), old(errors), Clashes(routed[..j], item))
      {
        assert routed[..j + 1][..j] == routed[..j];
        ghost var was, count := diags, errors;
        CheckTie(item, shape, routed[j], shapes[j], ok[j]);
        ToldInTurn(old(diags), old(errors), Clashes(routed[..j], item), was, count, Clash(routed[j], item));
        j := j + 1;
      }
      assert routed[..j] == routed;
    }

    lemma NothingTold()
      ensures Told(diags, errors, [])
    {
    }

    /** Reports follow one another. */
    lemma ToldInTurn(a: seq<Diagnostic>, i: nat, first: seq<Diagnostic>, b: seq<Diagnostic>, j: nat, then': seq<Diagnostic>)
      requires b == a + first && j == i + |first| && Told(b, j, then')
      ensures Told(a, i, first + then')
    {
    }

    /** `srv_check_scope`: reports what the scope should be told, in order, and counts it. */
    method CheckScope(items: seq<Item>, isDefault: bool)
      modifies this
      ensures Told(old(diags), old(errors), ScopeReport(items, isDefault))
    {
      hide HandlerReport, HeadReport, Routed, Recorded, SomeRoot, VerbOf;
      var rootSeen := false;
      var routed: seq<Item>, shapes: seq<SrvShape>, ok: seq<bool> := [], [], [];
      NoneBefore();
      assert items[..0] == [];
      var i := 0;
      while i < |items|
        invariant 0 <= i <= |items|
        invariant rootSeen == SomeRoot(items[..i])
        invariant routed == Routed(items[..i]) && AllRecorded(routed, shapes, ok)
        invariant Told(old(diags), old(errors), ScopeReport(items[..i], isDefault))
      {
        var item := items[i];
        ghost var before := items[..i];
        assert items[..i + 1][..i] == before;
        assert items[..i + 1] == before + [item];
        StepGrows(before, item);
        ghost var was, count := diags, errors;
        match item {
          case Directive(_, _, _) =>
            rootSeen := CheckDirective(item, isDefault, rootSeen, before);
          case Handler(_, _, _, _, _) =>
            routed, shapes, ok := CheckHandler(item, routed, shapes, ok, before);
          case Site(at) =>
            if !isDefault {
              Error(at, SiteInSite);
            }
          case Hook(word, at) =>
            if !isDefault {
              Error(at, HookInSite(word));
            } else if word != "drain" {
              Error(at, UnknownHook(word));
            }
        }
        assert Told(was, count, ItemReport(before, item, isDefault));
        ToldInTurn(old(diags), old(errors), ScopeReport(before, isDefault), was, count, ItemReport(before, item, isDefault));
        i := i + 1;
      }
      assert items[..i] == items;
    }

    method CheckDirective(item: Item, isDefault: bool, rootSeen: bool, ghost before: seq<Item>) returns (seen: bool)
      requires item.Directive? && rootSeen == SomeRoot(before)
      modifies this
      ensures seen == (rootSeen || IsRoot(item))
      ensures Told(old(diags), old(errors), ItemReport(before, item, isDefault))
    {
      hide SomeRoot;
      seen := rootSeen;
      if item.word == "root" {
        if item.strings != 1 {
          Error(item.at, NotOneDirectory);
        }
        if rootSeen {
          Error(item.at, RootTwice);
        }
        seen := true;
      } else if item.word == "trust_proxy" {
        if !isDefault {
          Error(item.at, ProxyInSite);
        } else if item.strings < 1 {
          Error(item.at, ProxyMissing);
        }
      } else {
        Error(item.at, UnknownDirective(item.word));
      }
    }

    method CheckHandler(item: Item, routed: seq<Item>, shapes: seq<SrvShape>, ok: seq<bool>, ghost before: seq<Item>)
      returns (routed': seq<Item>, shapes': seq<SrvShape>, ok': seq<bool>)
      requires item.Handler? && routed == Routed(before) && AllRecorded(routed, shapes, ok)
      modifies this
      ensures routed' == if IsRoute(item) then routed + [item] else routed
      ensures AllRecorded(routed', shapes', ok')
      ensures Told(old(diags), old(errors), HandlerReport(before, item))
    {
      hide Parse, Routed, Clashes, AllRecorded, SrvShape.Shows, SrvShape.ShowsAt;
      routed', shapes', ok' := routed, shapes, ok;
      if item.word !in VERBS {
        Error(item.at, UnknownVerb(item.word));
        return;
      }
      if item.closeWord.Some? && item.closeWord.value != item.word {
        Error(item.at, ClosedBy(item.word, item.path, item.closeWord.value));
      }
      if item.params != 1 {
        Error(item.at, NotOneParameter(item.word, item.path));
      }
      ghost var was, count := diags, errors;
      assert Told(old(diags), old(errors), HeadReport(item));
      var shape := new SrvShape();
      var good := ShapePath(item, shape);
      assert Recorded(item, shape, good);
      hide Recorded;
      if good {
        CheckTies(item, shape, routed, shapes, ok);
        ToldInTurn(old(diags), old(errors), HeadReport(item), was, count, Clashes(Routed(before), item));
      }
      RecordedMore(routed, shapes, ok, item, shape, good);
      routed', shapes', ok' := routed + [item], shapes + [shape], ok + [good];
    }
  }

  ghost predicate AllRecorded(routed: seq<Item>, shapes: seq<SrvShape>, ok: seq<bool>)
    reads set j | 0 <= j < |shapes| :: shapes[j]
    reads set j | 0 <= j < |shapes| :: shapes[j].rank
    reads set j | 0 <= j < |shapes| :: shapes[j].start
    reads set j | 0 <= j < |shapes| :: shapes[j].length
  {
    |routed| == |shapes| == |ok| && forall j :: 0 <= j < |routed| ==> Recorded(routed[j], shapes[j], ok[j])
  }

  /** What is kept of a route already checked. */
  ghost predicate Recorded(item: Item, shape: SrvShape, ok: bool)
    reads shape, shape.rank, shape.start, shape.length
  {
    item.Handler? && ok == Parse(item.path).Ok? && (ok ==> shape.Shows(Parse(item.path).value))
  }

  lemma ReadIsWritten(s: string, n: nat)
    requires n == Span(s) && SegmentOf(s[..n]).Ok?
    ensures SegmentOf(s[..n]).value.Written() == s[..n]
  {
    SegmentIsLegal(s[..n]);
  }

  lemma ShowsNone(shape: SrvShape)
    requires shape.Valid() && shape.count == 0
    ensures shape.Shows([])
  {
  }

  lemma ParseOnce(s: string, done: seq<Segment>)
    ensures var n := Span(s);
      ParseFrom(s, done) ==
        if |done| >= MAX_SEGMENTS then Bad(TooManySegments)
        else if SegmentOf(s[..n]).Bad? then Bad(SegmentOf(s[..n]).problem)
        else
          var seg := SegmentOf(s[..n]).value;
          if Placed(seg, n == |s|, done).Bad? then Bad(Placed(seg, n == |s|, done).problem)
          else if n == |s| then Ok(done + [seg])
          else ParseFrom(s[n + 1..], done + [seg])
  {
  }

  lemma RecordedMore(routed: seq<Item>, shapes: seq<SrvShape>, ok: seq<bool>, item: Item, shape: SrvShape, good: bool)
    requires AllRecorded(routed, shapes, ok) && Recorded(item, shape, good)
    ensures AllRecorded(routed + [item], shapes + [shape], ok + [good])
  {
    hide Recorded;
  }

  lemma NoNames()
    ensures forall n :: !Names([], n)
  {
  }

  lemma NamesGrow(done: seq<Segment>, seg: Segment)
    ensures forall n :: Names(done + [seg], n) <==> Names(done, n) || (seg.Named() && seg.name == n)
  {
    var all := done + [seg];
    assert all[|done|] == seg && forall i :: 0 <= i < |done| ==> all[i] == done[i];
  }

  lemma NoneBefore()
    ensures Routed([]) == [] && !SomeRoot([])
  {
  }

  lemma StepGrows(before: seq<Item>, item: Item)
    ensures SomeRoot(before + [item]) == (SomeRoot(before) || IsRoot(item))
    ensures Routed(before + [item]) == Routed(before) + if IsRoute(item) then [item] else []
  {
    var all := before + [item];
    assert all[..|before|] == before;
    assert all[|before|] == item && forall i :: 0 <= i < |before| ==> all[i] == before[i];
  }
}
