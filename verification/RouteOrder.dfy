/**
  Which requests a route matches and which of two routes is the more specific (`stdlib/web.bas`).
  A request path is cut into pieces; a route matches by position, its last segment perhaps taking the rest.
*/
module RouteOrder {
  import opened RoutePaths

  /** The pieces between slashes. */
  function Split(s: string): (r: seq<string>)
    ensures r != []
    decreases |s|
  {
    var n := Span(s);
    if n == |s| then [s] else [s[..n]] + Split(s[n + 1..])
  }

  /** `_segments`: what stands before the first slash is dropped. */
  function Pieces(path: string): seq<string> {
    if path == "/" then [] else Split(path)[1..]
  }

  /** Pieces joined again with slashes between them. */
  function Joined(pieces: seq<string>): string {
    if pieces == [] then [] else pieces[0] + Slashed(pieces[1..])
  }

  predicate Fits(seg: Segment, piece: string) {
    match seg
    case Static(text) => piece == text
    case Capture(_) => piece != []
    case Rest(_) => true
  }

  predicate EndsInRest(route: seq<Segment>) { route != [] && route[|route| - 1].Rest? }

  /** The rest takes one or more pieces, every other segment exactly one. */
  predicate Matches(route: seq<Segment>, pieces: seq<string>) {
    && (if EndsInRest(route) then |pieces| >= |route| else |pieces| == |route|)
    && forall i :: 0 <= i < |route| ==> Fits(route[i], pieces[i])
  }

  /** What the capture at position `i` is bound to. */
  function Bound(route: seq<Segment>, pieces: seq<string>, i: nat): string
    requires i < |route| <= |pieces|
  {
    if route[i].Rest? then Joined(pieces[i..]) else pieces[i]
  }

  /** The captures of the first `n` segments. */
  ghost predicate Binds(route: seq<Segment>, pieces: seq<string>, n: nat, params: map<string, string>)
    requires n <= |route| <= |pieces|
  {
    && (forall i :: 0 <= i < n && route[i].Named() ==>
         route[i].name in params && params[route[i].name] == Bound(route, pieces, i))
    && (forall key <- params :: exists i :: 0 <= i < n && route[i].Named() && route[i].name == key)
  }

  /** The route with its captures put back. */
  function Filled(route: seq<Segment>, params: map<string, string>): string {
    if route == [] then []
    else
      var seg := route[0];
      var piece := if seg.Static? then seg.text else if seg.name in params then params[seg.name] else [];
      "/" + piece + Filled(route[1..], params)
  }

  /** `_more_specific`: the first position whose ranks differ decides; then the longer route. */
  predicate MoreSpecific(a: seq<Segment>, b: seq<Segment>) {
    if a == [] then false
    else if b == [] then true
    else if a[0].Rank() != b[0].Rank() then a[0].Rank() > b[0].Rank()
    else MoreSpecific(a[1..], b[1..])
  }

  /** `_same_shape`, `srv_same_shape`. */
  predicate SameShape(a: seq<Segment>, b: seq<Segment>) {
    && |a| == |b|
    && forall i :: 0 <= i < |a| ==> a[i].Rank() == b[i].Rank() && (a[i].Static? ==> a[i].text == b[i].text)
  }

  predicate SameRanks(a: seq<Segment>, b: seq<Segment>) {
    |a| == |b| && forall i :: 0 <= i < |a| ==> a[i].Rank() == b[i].Rank()
  }

  /* ---- request paths and pieces ---- */

  lemma {:induction false} SplitOfSlashed(first: string, pieces: seq<string>)
    requires forall i :: 0 <= i < |first| ==> first[i] != '/'
    requires forall k, i :: 0 <= k < |pieces| && 0 <= i < |pieces[k]| ==> pieces[k][i] != '/'
    ensures Split(first + Slashed(pieces)) == [first] + pieces
    decreases |pieces|
  {
    if pieces == [] {
      SpanOfPiece(first, []);
      assert first + [] == first;
    } else {
      SlashedStart(pieces);
      var more := Slashed(pieces);
      SpanOfPiece(first, more);
      var s := first + more;
      assert s[..|first|] == first && s[|first| + 1..] == pieces[0] + Slashed(pieces[1..]);
      SplitOfSlashed(pieces[0], pieces[1..]);
    }
  }

  /** Pieces without slashes are what the path spelled by them is cut into, the lone empty piece excepted. */
  lemma PiecesOfPath(pieces: seq<string>)
    requires forall k, i :: 0 <= k < |pieces| && 0 <= i < |pieces[k]| ==> pieces[k][i] != '/'
    requires pieces != [] && pieces != [[]]
    ensures Pieces(Slashed(pieces)) == pieces
  {
    SplitOfSlashed([], pieces);
    assert [] + Slashed(pieces) == Slashed(pieces);
    SlashedStart(pieces);
    assert |pieces| == 1 ==> pieces == [pieces[0]];
    if |pieces| > 1 {
      SlashedStart(pieces[1..]);
    }
  }

  lemma SlashedJoins(pieces: seq<string>)
    requires pieces != []
    ensures Slashed(pieces) == "/" + Joined(pieces)
  {
  }

  lemma JoinedOneMore(piece: string, later: seq<string>)
    requires later != []
    ensures Joined([piece] + later) == piece + ("/" + Joined(later))
  {
    SlashedJoins(later);
    assert ([piece] + later)[1..] == later;
  }

  lemma CutAtSlash(s: string, n: nat)
    requires n < |s| && s[n] == '/'
    ensures s == s[..n] + ("/" + s[n + 1..])
  {
  }

  lemma JoinedOne(piece: string)
    ensures Joined([piece]) == piece
  {
  }

  lemma {:induction false} SplitJoins(s: string)
    ensures Joined(Split(s)) == s
    decreases |s|
  {
    hide Joined, Slashed;
    var n := Span(s);
    if n < |s| {
      var later := Split(s[n + 1..]);
      SplitJoins(s[n + 1..]);
      assert Split(s) == [s[..n]] + later;
      hide *;
      JoinedOneMore(s[..n], later);
      CutAtSlash(s, n);
    } else {
      JoinedOne(s);
    }
  }

  /** Every rooted path is spelled by its pieces. */
  lemma PathOfPieces(path: string)
    requires path != [] && path[0] == '/' && path != "/"
    ensures Slashed(Pieces(path)) == path
  {
    SplitJoins(path);
    assert Span(path) == 0 && path[..0] == [];
    assert Split(path)[0] == [];
  }

  /* ---- a match can be undone ---- */

  lemma BindsTail(route: seq<Segment>, pieces: seq<string>, k: nat, params: map<string, string>)
    requires k < |route| <= |pieces| && Binds(route, pieces, |route|, params) && Matches(route, pieces)
    ensures route[k].Static? ==> route[k].text == pieces[k]
    ensures route[k].Capture? ==> route[k].name in params && params[route[k].name] == pieces[k]
    ensures route[k].Rest? ==> route[k].name in params && params[route[k].name] == Joined(pieces[k..])
  {
    assert Fits(route[k], pieces[k]);
  }

  lemma {:induction false} FilledFrom(route: seq<Segment>, pieces: seq<string>, k: nat, params: map<string, string>)
    requires k <= |route| <= |pieces| && RestOnlyLast(route) && Matches(route, pieces)
    requires Binds(route, pieces, |route|, params)
    ensures k < |route| || !EndsInRest(route) ==> Filled(route[k..], params) == Slashed(pieces[k..])
    decreases |route| - k
  {
    if k < |route| {
      var seg, here := route[k], pieces[k..];
      BindsTail(route, pieces, k, params);
      FilledFrom(route, pieces, k + 1, params);
      assert route[k..][1..] == route[k + 1..] && here[1..] == pieces[k + 1..];
      if seg.Rest? {
        assert route[k + 1..] == [];
        assert Slashed(here) == "/" + Joined(here);
        assert "/" + Joined(here) + [] == "/" + Joined(here);
      }
    }
  }

  /** Putting the captured values back into the pattern gives the request path again, so nothing of a
      request is lost in its captures. */
  lemma CapturesRebuildThePath(route: seq<Segment>, path: string, params: map<string, string>)
    requires RestOnlyLast(route) && path != [] && path[0] == '/' && path != "/"
    requires Matches(route, Pieces(path)) && Binds(route, Pieces(path), |route|, params)
    ensures Filled(route, params) == path
  {
    var pieces := Pieces(path);
    FilledFrom(route, pieces, 0, params);
    PathOfPieces(path);
    assert route[0..] == route && pieces[0..] == pieces;
  }

  /* ---- a route matches exactly the paths it spells ---- */

  predicate NoSlash(s: string) { forall i :: 0 <= i < |s| ==> s[i] != '/' }

  predicate NoSlashes(pieces: seq<string>) { forall k :: 0 <= k < |pieces| ==> NoSlash(pieces[k]) }

  /** Values for the captures: something without a slash for each, anything for the rest. */
  predicate Admissible(route: seq<Segment>, params: map<string, string>) {
    forall i :: 0 <= i < |route| && route[i].Named() ==>
      route[i].name in params && (route[i].Capture? ==> params[route[i].name] != [] && NoSlash(params[route[i].name]))
  }

  lemma {:induction false} SplitHasNoSlash(s: string)
    ensures NoSlashes(Split(s))
    decreases |s|
  {
    var n := Span(s);
    assert NoSlash(s[..n]);
    if n < |s| {
      SplitHasNoSlash(s[n + 1..]);
    }
  }

  /** What the captures of the first `n` segments are bound to. */
  function Captured(route: seq<Segment>, pieces: seq<string>, n: nat): map<string, string>
    requires n <= |route| <= |pieces|
  {
    if n == 0 then map[]
    else
      var before := Captured(route, pieces, n - 1);
      if route[n - 1].Named() then before[route[n - 1].name := Bound(route, pieces, n - 1)] else before
  }

  lemma {:induction false} CapturedBinds(route: seq<Segment>, pieces: seq<string>, n: nat)
    requires n <= |route| <= |pieces| && DistinctNames(route)
    ensures Binds(route, pieces, n, Captured(route, pieces, n))
  {
    hide Bound;
    if n > 0 {
      CapturedBinds(route, pieces, n - 1);
    }
  }

  /** The pieces that a route filled in spells. */
  function Spelled(route: seq<Segment>, params: map<string, string>): seq<string>
    requires Admissible(route, params)
  {
    if route == [] then []
    else
      assert Admissible(route[1..], params) by {
        assert forall i :: 0 <= i < |route[1..]| ==> route[1..][i] == route[i + 1];
      }
      (match route[0]
       case Static(text) => [text]
       case Capture(name) => [params[name]]
       case Rest(name) => Split(params[name])) + Spelled(route[1..], params)
  }

  lemma RestEnds(route: seq<Segment>)
    requires route != [] && RestOnlyLast(route)
    ensures RestOnlyLast(route[1..]) && (route[0].Rest? ==> |route| == 1)
    ensures EndsInRest(route) <==> route[0].Rest? || EndsInRest(route[1..])
  {
  }

  lemma {:induction false} SpelledIs(route: seq<Segment>, params: map<string, string>)
    requires Admissible(route, params) && RestOnlyLast(route)
    requires forall i :: 0 <= i < |route| ==> LegalSegment(route[i])
    ensures var pieces := Spelled(route, params);
      NoSlashes(pieces) && Filled(route, params) == Slashed(pieces) && Matches(route, pieces)
      && (pieces == [[]] ==> route != [] && route[0].Rest?)
    decreases |route|
  {
    if route != [] {
      var more := route[1..];
      RestEnds(route);
      assert forall i :: 0 <= i < |more| ==> more[i] == route[i + 1];
      SpelledIs(more, params);
      if route[0].Rest? {
        RestSpelled(route, params);
      } else {
        FirstSpelled(route, params);
      }
    }
  }

  lemma RestSpelled(route: seq<Segment>, params: map<string, string>)
    requires |route| == 1 && route[0].Rest? && Admissible(route, params)
    ensures var pieces := Spelled(route, params);
      NoSlashes(pieces) && Filled(route, params) == Slashed(pieces) && Matches(route, pieces)
  {
    var v := params[route[0].name];
    SplitHasNoSlash(v);
    SplitJoins(v);
    assert route[1..] == [];
    AloneIsSpelled(route, params);
    hide Split, Spelled, Filled, Joined, Slashed, Admissible;
  }

  lemma AloneIsSpelled(route: seq<Segment>, params: map<string, string>)
    requires |route| == 1 && route[0].Rest? && Admissible(route, params) && route[1..] == []
    ensures var v := params[route[0].name];
      && Spelled(route, params) == Split(v)
      && Filled(route, params) == "/" + v && Slashed(Split(v)) == "/" + Joined(Split(v))
  {
    hide Split;
    var v := params[route[0].name];
    assert Spelled(route, params) == Split(v) + [];
    hide Spelled;
    assert Filled(route, params) == "/" + v + [];
    SlashedJoins(Split(v));
  }

  lemma FirstSpelled(route: seq<Segment>, params: map<string, string>)
    requires route != [] && !route[0].Rest? && LegalSegment(route[0]) && Admissible(route, params)
    requires Admissible(route[1..], params) && (EndsInRest(route) <==> EndsInRest(route[1..]))
    requires var later := Spelled(route[1..], params);
      NoSlashes(later) && Filled(route[1..], params) == Slashed(later) && Matches(route[1..], later)
    ensures var pieces := Spelled(route, params);
      NoSlashes(pieces) && Filled(route, params) == Slashed(pieces) && Matches(route, pieces) && pieces[0] != []
  {
    var later, pieces := Spelled(route[1..], params), Spelled(route, params);
    var first := if route[0].Static? then route[0].text else params[route[0].name];
    assert pieces == [first] + later && pieces[1..] == later;
    assert NoSlash(first);
    assert forall i :: 1 <= i < |route| ==> route[i] == route[1..][i - 1];
    hide Spelled, IsName, EndsInRest;
    assert forall i :: 1 <= i < |pieces| ==> pieces[i] == later[i - 1];
  }

  lemma {:induction false} CapturesAreAdmissible(route: seq<Segment>, pieces: seq<string>)
    requires Matches(route, pieces) && NoSlashes(pieces) && DistinctNames(route)
    ensures Admissible(route, Captured(route, pieces, |route|))
  {
    CapturedBinds(route, pieces, |route|);
    hide Captured;
    forall i | 0 <= i < |route| && route[i].Named() ensures route[i].Capture? ==> pieces[i] != [] && NoSlash(pieces[i]) {
      assert Fits(route[i], pieces[i]);
    }
  }

  lemma PiecesHaveNoSlash(path: string)
    ensures NoSlashes(Pieces(path))
  {
    SplitHasNoSlash(path);
  }

  /** A legal route matches a request path exactly when some values for its captures make it that path: something
      without a slash for each, anything for the rest.  The root path is matched by the route without segments
      alone. */
  lemma MatchesIffSpelled(route: seq<Segment>, path: string)
    requires Legal(route) && path != [] && path[0] == '/'
    ensures path != "/" ==>
      (Matches(route, Pieces(path)) <==> exists params :: Admissible(route, params) && Filled(route, params) == path)
    ensures path == "/" ==> (Matches(route, Pieces(path)) <==> route == [])
  {
    if path != "/" {
      if Matches(route, Pieces(path)) {
        var pieces := Pieces(path);
        PiecesHaveNoSlash(path);
        CapturedBinds(route, pieces, |route|);
        CapturesAreAdmissible(route, pieces);
        var params := Captured(route, pieces, |route|);
        hide Captured, Binds, Filled, Pieces, Matches;
        CapturesRebuildThePath(route, path, params);
        assert Admissible(route, params) && Filled(route, params) == path;
      }
      if params :| Admissible(route, params) && Filled(route, params) == path {
        SpelledIs(route, params);
        var pieces := Spelled(route, params);
        hide Matches, Filled, Spelled, Admissible;
        assert Slashed([[]]) == "/" + [] + Slashed([]);
        PiecesOfPath(pieces);
      }
    }
  }

  /* ---- specificity ---- */

  lemma {:induction false} ComparedByRanks(a: seq<Segment>, b: seq<Segment>)
    ensures !MoreSpecific(a, b) && !MoreSpecific(b, a) <==> SameRanks(a, b)
    ensures !(MoreSpecific(a, b) && MoreSpecific(b, a))
  {
    if a != [] && b != [] {
      ComparedByRanks(a[1..], b[1..]);
      assert forall i :: 1 <= i < |a| ==> a[i] == a[1..][i - 1];
      assert forall i :: 1 <= i < |b| ==> b[i] == b[1..][i - 1];
    }
  }

  /** Being more specific is a strict order. */
  lemma {:induction false} MoreSpecificIsTransitive(a: seq<Segment>, b: seq<Segment>, c: seq<Segment>)
    requires MoreSpecific(a, b) && MoreSpecific(b, c)
    ensures MoreSpecific(a, c)
  {
    if c != [] && a[0].Rank() == b[0].Rank() == c[0].Rank() {
      MoreSpecificIsTransitive(a[1..], b[1..], c[1..]);
    }
  }

  /** Routes that do not differ in rank are alike to a third. */
  lemma {:induction false} SameRanksCompareAlike(a: seq<Segment>, b: seq<Segment>, c: seq<Segment>)
    requires SameRanks(a, b)
    ensures MoreSpecific(a, c) == MoreSpecific(b, c) && MoreSpecific(c, a) == MoreSpecific(c, b)
  {
    if a != [] && c != [] {
      assert forall i :: 0 <= i < |a[1..]| ==> a[1..][i].Rank() == b[1..][i].Rank();
      SameRanksCompareAlike(a[1..], b[1..], c[1..]);
    }
  }

  lemma {:induction false} NotMoreSpecificTwice(a: seq<Segment>, b: seq<Segment>, c: seq<Segment>)
    requires MoreSpecific(a, b) && !MoreSpecific(c, b)
    ensures MoreSpecific(a, c)
  {
    ComparedByRanks(b, c);
    if MoreSpecific(b, c) {
      MoreSpecificIsTransitive(a, b, c);
    } else {
      SameRanksCompareAlike(b, c, a);
    }
  }

  /** Routes of one shape match the same requests, and neither is the more specific. */
  lemma SameShapeMatchesSame(a: seq<Segment>, b: seq<Segment>, pieces: seq<string>)
    requires SameShape(a, b)
    ensures Matches(a, pieces) <==> Matches(b, pieces)
    ensures !MoreSpecific(a, b) && !MoreSpecific(b, a)
  {
    ComparedByRanks(a, b);
    forall i | 0 <= i < |a| <= |pieces| ensures Fits(a[i], pieces[i]) == Fits(b[i], pieces[i]) {
      assert a[i].Rank() == b[i].Rank();
    }
    if a != [] {
      assert a[|a| - 1].Rank() == b[|b| - 1].Rank();
    }
  }

  /** Between routes that match one request, length never decides: equal ranks as far as both go
      means equal length. */
  lemma LengthNeverDecides(a: seq<Segment>, b: seq<Segment>, pieces: seq<string>)
    requires RestOnlyLast(a) && RestOnlyLast(b) && Matches(a, pieces) && Matches(b, pieces)
    requires forall i :: 0 <= i < |a| && i < |b| ==> a[i].Rank() == b[i].Rank()
    ensures |a| == |b|
  {
    assert a != [] && |a| <= |b| ==> a[|a| - 1].Rank() == b[|a| - 1].Rank();
    assert b != [] && |b| <= |a| ==> a[|b| - 1].Rank() == b[|b| - 1].Rank();
  }

  /** Two routes that match one request are of one shape unless one of them is the more specific. */
  lemma UndecidedMeansSameShape(a: seq<Segment>, b: seq<Segment>, pieces: seq<string>)
    requires Matches(a, pieces) && Matches(b, pieces) && !MoreSpecific(a, b) && !MoreSpecific(b, a)
    ensures SameShape(a, b)
  {
    ComparedByRanks(a, b);
    forall i | 0 <= i < |a| ensures a[i].Rank() == b[i].Rank() && (a[i].Static? ==> a[i].text == b[i].text) {
      assert Fits(a[i], pieces[i]) && Fits(b[i], pieces[i]);
    }
  }

  /** A request the route matches. */
  function Example(route: seq<Segment>): seq<string> {
    seq(|route|, i requires 0 <= i < |route| => if route[i].Static? then route[i].text else "x")
  }

  ghost predicate Undecided(a: seq<Segment>, b: seq<Segment>, path: string) {
    && Matches(a, Pieces(path)) && Matches(b, Pieces(path))
    && !MoreSpecific(a, b) && !MoreSpecific(b, a)
  }

  lemma ExampleMatches(route: seq<Segment>) returns (path: string)
    requires Legal(route)
    ensures path != [] && path[0] == '/' && Matches(route, Pieces(path))
  {
    var pieces := Example(route);
    path := if route == [] then "/" else Slashed(pieces);
    if route != [] {
      forall k | 0 <= k < |pieces| ensures pieces[k] != [] && forall i :: 0 <= i < |pieces[k]| ==> pieces[k][i] != '/' {
        assert LegalSegment(route[k]);
      }
      PiecesOfPath(pieces);
      SlashedStart(pieces);
    }
  }

  /** Two routes are of one shape exactly when some request path would leave dispatch to guess between
      them: refusing that shape refuses nothing else and misses nothing. */
  lemma SameShapeIffUndecided(a: seq<Segment>, b: seq<Segment>)
    requires Legal(a) && Legal(b)
    ensures SameShape(a, b) <==> exists path :: path != [] && path[0] == '/' && Undecided(a, b, path)
  {
    if SameShape(a, b) {
      var path := ExampleMatches(a);
      SameShapeMatchesSame(a, b, Pieces(path));
      assert Undecided(a, b, path);
    }
    if path: string :| path != [] && path[0] == '/' && Undecided(a, b, path) {
      UndecidedMeansSameShape(a, b, Pieces(path));
    }
  }

  /* ---- what specificity means, without ranks ---- */

  predicate SameKind(x: Segment, y: Segment) {
    x.Static? == y.Static? && x.Capture? == y.Capture?
  }

  /** The first position where the kinds differ decides: static text before a capture before a rest. */
  lemma {:induction false} FirstDifferenceDecides(a: seq<Segment>, b: seq<Segment>, i: nat)
    requires i < |a| && i < |b| && !SameKind(a[i], b[i])
    requires forall j :: 0 <= j < i ==> SameKind(a[j], b[j])
    ensures MoreSpecific(a, b) <==> a[i].Static? || (a[i].Capture? && b[i].Rest?)
  {
    if i > 0 {
      assert SameKind(a[0], b[0]);
      assert forall j :: 0 <= j < i - 1 ==> a[1..][j] == a[j + 1] && b[1..][j] == b[j + 1];
      FirstDifferenceDecides(a[1..], b[1..], i - 1);
    }
  }

  /** With no such position the longer one is ahead. */
  lemma {:induction false} ElseLengthDecides(a: seq<Segment>, b: seq<Segment>)
    requires forall j :: 0 <= j < |a| && j < |b| ==> SameKind(a[j], b[j])
    ensures MoreSpecific(a, b) <==> |a| > |b|
  {
    if a != [] && b != [] {
      assert SameKind(a[0], b[0]);
      assert forall j :: 0 <= j < |a| - 1 && j < |b| - 1 ==> a[1..][j] == a[j + 1] && b[1..][j] == b[j + 1];
      ElseLengthDecides(a[1..], b[1..]);
    }
  }

  /** Whatever request path the one matches, the other matches. */
  ghost predicate Covers(b: seq<Segment>, a: seq<Segment>) {
    forall path :: path != [] && path[0] == '/' && Matches(a, Pieces(path)) ==> Matches(b, Pieces(path))
  }

  /** Pieces that a path can have. */
  predicate Usable(pieces: seq<string>) {
    forall k :: 0 <= k < |pieces| ==> pieces[k] != [] && NoSlash(pieces[k])
  }

  lemma UsablePath(pieces: seq<string>) returns (path: string)
    requires Usable(pieces)
    ensures path != [] && path[0] == '/' && Pieces(path) == pieces
  {
    path := if pieces == [] then "/" else Slashed(pieces);
    if pieces != [] {
      assert forall k :: 0 <= k < |pieces| ==> NoSlash(pieces[k]);
      assert pieces[0] != [];
      PiecesOfPath(pieces);
      SlashedStart(pieces);
    }
  }

  /** The pieces of a request that a legal route matches, what it captures spelled `other`, and `more` pieces at its
      end. */
  function ExampleWith(route: seq<Segment>, other: string, more: nat): seq<string> {
    seq(|route| + more, i requires 0 <= i < |route| + more => if i < |route| && route[i].Static? then route[i].text else other)
  }

  lemma ExampleWithMatches(route: seq<Segment>, other: string, more: nat)
    requires Legal(route) && other != [] && NoSlash(other) && (more > 0 ==> EndsInRest(route))
    ensures Usable(ExampleWith(route, other, more)) && Matches(route, ExampleWith(route, other, more))
  {
    var pieces := ExampleWith(route, other, more);
    forall k | 0 <= k < |pieces| ensures pieces[k] != [] && NoSlash(pieces[k]) {
      if k < |route| {
        assert LegalSegment(route[k]);
      }
    }
  }

  lemma CoversExample(a: seq<Segment>, b: seq<Segment>, other: string, more: nat)
    requires Legal(a) && Covers(b, a) && other != [] && NoSlash(other) && (more > 0 ==> EndsInRest(a))
    ensures Matches(b, ExampleWith(a, other, more))
  {
    ExampleWithMatches(a, other, more);
    var path := UsablePath(ExampleWith(a, other, more));
  }

  /** A route that covers another is nowhere the more demanding one. */
  lemma CoversKinds(a: seq<Segment>, b: seq<Segment>, i: nat)
    requires Legal(a) && Legal(b) && Covers(b, a) && i < |a| && i < |b|
    ensures b[i].Static? ==> a[i].Static? && a[i].text == b[i].text
    ensures b[i].Capture? ==> !a[i].Rest?
  {
    var other := if b[i].Static? && b[i].text == "x" then "y" else "x";
    CoversExample(a, b, other, 0);
    assert Fits(b[i], ExampleWith(a, other, 0)[i]);
    if a[i].Rest? && b[i].Capture? {
      assert i == |a| - 1;
      CoversExample(a, b, "x", 1);
      assert false;
    }
  }

  lemma CoversLength(a: seq<Segment>, b: seq<Segment>)
    requires Legal(a) && Legal(b) && Covers(b, a)
    requires forall j :: 0 <= j < |a| && j < |b| ==> SameKind(a[j], b[j])
    ensures |a| == |b|
  {
    CoversExample(a, b, "x", 0);
  }

  /** A route that matches only requests which another matches too, and is not of its shape, is the more specific. */
  lemma NarrowerIsMoreSpecific(a: seq<Segment>, b: seq<Segment>)
    requires Legal(a) && Legal(b) && Covers(b, a) && !SameShape(a, b)
    ensures MoreSpecific(a, b)
  {
    hide Legal, Covers;
    if i :| 0 <= i < |a| && i < |b| && !SameKind(a[i], b[i]) {
      var first := FirstDifference(a, b, i);
      hide SameShape, MoreSpecific;
      CoversKinds(a, b, first);
      FirstDifferenceDecides(a, b, first);
    } else {
      CoversLength(a, b);
      forall j | 0 <= j < |a| ensures a[j].Rank() == b[j].Rank() && (a[j].Static? ==> a[j].text == b[j].text) {
        CoversKinds(a, b, j);
        assert SameKind(a[j], b[j]);
      }
      assert false;
    }
  }

  lemma FirstDifference(a: seq<Segment>, b: seq<Segment>, i: nat) returns (first: nat)
    requires i < |a| && i < |b| && !SameKind(a[i], b[i])
    ensures first <= i && !SameKind(a[first], b[first]) && forall j :: 0 <= j < first ==> SameKind(a[j], b[j])
  {
    if j: nat :| j < i && !SameKind(a[j], b[j]) {
      first := FirstDifference(a, b, j);
    } else {
      first := i;
    }
  }
}
