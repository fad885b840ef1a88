/**
  Dispatch over a prepared table of routes (`stdlib/web.bas`).  `Resolve` walks the table once and keeps the
  best match so far; in a settled table its answer is the one most specific match, in whatever order the
  routes were declared.
*/
module RouteTable {
  import opened Wrappers
  import opened RoutePaths
  import opened RouteOrder

  datatype Route = Route(verb: string, path: string, segments: seq<Segment>)

  /** `_same_shape`. */
  method SameShapeByLoop(a: seq<Segment>, b: seq<Segment>) returns (same: bool)
    ensures same == SameShape(a, b)
  {
    if |a| != |b| {
      return false;
    }
    var i := 0;
    while i < |a|
      invariant 0 <= i <= |a|
      invariant forall k :: 0 <= k < i ==> a[k].Rank() == b[k].Rank() && (a[k].Static? ==> a[k].text == b[k].text)
    {
      if a[i].Rank() != b[i].Rank() || (a[i].Static? && a[i].text != b[i].text) {
        return false;
      }
      i := i + 1;
    }
    return true;
  }

  /** `_more_specific`. */
  method MoreSpecificByLoop(a: seq<Segment>, b: seq<Segment>) returns (more: bool)
    ensures more == MoreSpecific(a, b)
  {
    var limit := if |b| < |a| then |b| else |a|;
    var i := 0;
    while i < limit
      invariant 0 <= i <= limit
      invariant MoreSpecific(a[i..], b[i..]) == MoreSpecific(a, b)
    {
      if a[i].Rank() != b[i].Rank() {
        return a[i].Rank() > b[i].Rank();
      }
      assert a[i..][1..] == a[i + 1..] && b[i..][1..] == b[i + 1..];
      i := i + 1;
    }
    return |a| > |b|;
  }

  lemma SlashedAt(pieces: seq<string>, j: nat)
    requires j < |pieces|
    ensures Slashed(pieces[j..]) == "/" + pieces[j] + Slashed(pieces[j + 1..])
    ensures Joined(pieces[j..]) == pieces[j] + Slashed(pieces[j + 1..])
  {
    assert pieces[j..][1..] == pieces[j + 1..];
  }

  /** The pieces from `i` on, joined one by one. */
  method TailText(pieces: seq<string>, i: nat) returns (tail: string)
    requires i < |pieces|
    ensures tail == Joined(pieces[i..])
  {
    hide Joined, Slashed;
    tail := "";
    var j := i;
    while j < |pieces|
      invariant i <= j <= |pieces|
      invariant j == i ==> tail == ""
      invariant j > i ==> tail + Slashed(pieces[j..]) == Joined(pieces[i..])
    {
      SlashedAt(pieces, j);
      ghost var later := Slashed(pieces[j + 1..]);
      if j > i {
        Regroup(tail, pieces[j], later);
        tail := tail + "/";
      } else {
        assert tail + pieces[j] == pieces[j];
      }
      tail := tail + pieces[j];
      j := j + 1;
    }
    NoneLeft(pieces, tail);
  }

  lemma Regroup(tail: string, piece: string, later: string)
    ensures tail + ("/" + piece + later) == tail + "/" + piece + later
  {
  }

  lemma NoneLeft(pieces: seq<string>, tail: string)
    ensures tail + Slashed(pieces[|pieces|..]) == tail
  {
  }

  /** The first `n` segments, none the rest, fit their pieces. */
  predicate FitsUpTo(route: seq<Segment>, pieces: seq<string>, n: nat)
    requires n <= |route| && n <= |pieces|
  {
    forall k :: 0 <= k < n ==> !route[k].Rest? && Fits(route[k], pieces[k])
  }

  lemma MatchDecided(route: seq<Segment>, pieces: seq<string>, i: nat)
    requires i <= |route| && i <= |pieces| && RestOnlyLast(route) && FitsUpTo(route, pieces, i)
    ensures i == |route| ==> (Matches(route, pieces) <==> |pieces| == |route|)
    ensures i < |route| && i == |pieces| ==> !Matches(route, pieces)
    ensures i < |route| && i < |pieces| && route[i].Rest? ==> i == |route| - 1 && Matches(route, pieces)
    ensures i < |route| && i < |pieces| && !Fits(route[i], pieces[i]) ==> !Matches(route, pieces)
  {
  }

  /** `_match_route`: whether the route matches, and what its captures are bound to. */
  method MatchRoute(route: seq<Segment>, pieces: seq<string>) returns (params: Option<map<string, string>>)
    requires RestOnlyLast(route) && DistinctNames(route)
    ensures params.Some? <==> Matches(route, pieces)
    ensures params.Some? ==> |route| <= |pieces| && Binds(route, pieces, |route|, params.value)
  {
    hide Matches, Binds, Joined, DistinctNames, RestOnlyLast;
    var found: map<string, string> := map[];
    var i := 0;
    BindNone(route, pieces, found);
    while i < |route|
      invariant 0 <= i <= |route| && i <= |pieces|
      invariant FitsUpTo(route, pieces, i)
      invariant |route| <= |pieces| ==> Binds(route, pieces, i, found)
    {
      var r := route[i];
      MatchDecided(route, pieces, i);
      if |pieces| <= i {
        return None;
      }
      if r.Rest? {
        var tail := TailText(pieces, i);
        BindOne(route, pieces, i, found, tail);
        return Some(found[r.name := tail]);
      }
      if !Fits(r, pieces[i]) {
        return None;
      }
      if r.Capture? {
        if |route| <= |pieces| {
          BindOne(route, pieces, i, found, pieces[i]);
        }
        found := found[r.name := pieces[i]];
      } else if |route| <= |pieces| {
        BindStatic(route, pieces, i, found);
      }
      i := i + 1;
    }
    MatchDecided(route, pieces, i);
    if |pieces| != |route| {
      return None;
    }
    return Some(found);
  }

  lemma BindNone(route: seq<Segment>, pieces: seq<string>, params: map<string, string>)
    requires params == map[]
    ensures |route| <= |pieces| ==> Binds(route, pieces, 0, params)
  {
  }

  lemma BindStatic(route: seq<Segment>, pieces: seq<string>, i: nat, params: map<string, string>)
    requires i < |route| <= |pieces| && route[i].Static? && Binds(route, pieces, i, params)
    ensures Binds(route, pieces, i + 1, params)
  {
    hide Bound;
    forall key <- params ensures exists k :: 0 <= k < i + 1 && route[k].Named() && route[k].name == key {
      var k :| 0 <= k < i && route[k].Named() && route[k].name == key;
      assert 0 <= k < i + 1;
    }
  }

  lemma BindOne(route: seq<Segment>, pieces: seq<string>, i: nat, params: map<string, string>, value: string)
    requires i < |route| <= |pieces| && DistinctNames(route) && route[i].Named()
    requires Binds(route, pieces, i, params) && value == Bound(route, pieces, i)
    ensures Binds(route, pieces, i + 1, params[route[i].name := value])
  {
    hide Bound;
    var now := params[route[i].name := value];
    forall k | 0 <= k < i + 1 && route[k].Named()
      ensures route[k].name in now && now[route[k].name] == Bound(route, pieces, k)
    {
    }
    forall key <- now ensures exists k :: 0 <= k < i + 1 && route[k].Named() && route[k].name == key {
      if key in params {
        var k :| 0 <= k < i && route[k].Named() && route[k].name == key;
        assert 0 <= k < i + 1;
      } else {
        assert route[i].name == key;
      }
    }
  }

  ghost predicate Prepared(table: seq<Route>) {
    forall i :: 0 <= i < |table| ==> Legal(table[i].segments)
  }

  /** No two routes of one method have one shape. */
  ghost predicate Settled(table: seq<Route>) {
    && Prepared(table)
    && forall i, j :: 0 <= i < j < |table| && table[i].verb == table[j].verb ==>
         !SameShape(table[i].segments, table[j].segments)
  }

  /** `_refuse_ties`: the table is refused exactly when it is not settled. */
  method RefuseTies(table: seq<Route>) returns (refused: bool)
    requires Prepared(table)
    ensures refused <==> !Settled(table)
  {
    for i := 0 to |table|
      invariant forall a, b :: 0 <= a < i && a < b < |table| ==> !Ties(table[a], table[b])
    {
      for j := i + 1 to |table|
        invariant forall b :: i < b < j ==> !Ties(table[i], table[b])
      {
        if table[i].verb == table[j].verb {
          var tied := SameShapeByLoop(table[i].segments, table[j].segments);
          if tied {
            assert !Settled(table);
            return true;
          }
        }
      }
    }
    assert forall a, b :: 0 <= a < b < |table| ==> !Ties(table[a], table[b]);
    return false;
  }

  /** Two routes of one method and one shape. */
  predicate Ties(a: Route, b: Route) { a.verb == b.verb && SameShape(a.segments, b.segments) }

  predicate Hit(r: Route, verb: string, pieces: seq<string>) {
    r.verb == verb && Matches(r.segments, pieces)
  }

  /** Row `k` of the first `n`: a hit, beaten by none and not met by an equal before it. */
  ghost predicate Chosen(table: seq<Route>, n: nat, verb: string, pieces: seq<string>, k: nat)
    requires n <= |table|
  {
    && k < n && Hit(table[k], verb, pieces)
    && (forall j :: 0 <= j < n && Hit(table[j], verb, pieces) ==> !MoreSpecific(table[j].segments, table[k].segments))
    && (forall j :: 0 <= j < k && Hit(table[j], verb, pieces) ==> MoreSpecific(table[k].segments, table[j].segments))
  }

  datatype Found = NotFound | Found(row: nat, params: map<string, string>)

  /** The answer for the first `n` rows: the first among the hits that no hit beats, with its captures. */
  ghost predicate Answers(table: seq<Route>, n: nat, verb: string, pieces: seq<string>, best: Found)
    requires n <= |table|
  {
    match best
    case NotFound => forall k :: 0 <= k < n ==> !Hit(table[k], verb, pieces)
    case Found(row, params) => Chosen(table, n, verb, pieces, row) && Bindings(table[row].segments, pieces, params)
  }

  ghost predicate Bindings(route: seq<Segment>, pieces: seq<string>, params: map<string, string>) {
    |route| <= |pieces| && Binds(route, pieces, |route|, params)
  }

  /** The methods declared for the path, each once. */
  ghost predicate Allowed(table: seq<Route>, n: nat, pieces: seq<string>, allow: seq<string>)
    requires n <= |table|
  {
    && (forall m :: m in allow <==> exists k :: 0 <= k < n && Hit(table[k], m, pieces))
    && forall i, j :: 0 <= i < j < |allow| ==> allow[i] != allow[j]
  }

  /** `resolve`, up to the sorting of the methods allowed. */
  method Resolve(table: seq<Route>, verb: string, path: string) returns (best: Found, allow: seq<string>)
    requires Prepared(table)
    ensures Answers(table, |table|, verb, Pieces(path), best)
    ensures Allowed(table, |table|, Pieces(path), allow)
  {
    hide Legal, Matches, Chosen, Allowed, Bindings, MoreSpecific, Pieces;
    var pieces := Pieces(path);
    best, allow := NotFound, [];
    NoneAllowed(table, pieces);
    var i := 0;
    while i < |table|
      invariant 0 <= i <= |table|
      invariant Answers(table, i, verb, pieces, best)
      invariant Allowed(table, i, pieces, allow)
    {
      var route := table[i];
      IsPrepared(table, i);
      var hit := MatchRoute(route.segments, pieces);
      ghost var was := allow;
      ghost var before := best;
      if hit.Some? {
        HasBindings(route.segments, pieces, hit.value);
        if route.verb !in allow {
          allow := allow + [route.verb];
        }
        if route.verb == verb {
          if best.NotFound? {
            FirstHit(table, i, verb, pieces);
            best := Found(i, hit.value);
          } else {
            IsEarlier(table, i, verb, pieces, best.row);
            var wins := MoreSpecificByLoop(route.segments, table[best.row].segments);
            if wins {
              Overtakes(table, i, verb, pieces, best.row);
              best := Found(i, hit.value);
            } else {
              Stays(table, i, verb, pieces, best.row);
            }
          }
        }
      }
      if !Hit(route, verb, pieces) && best.Found? {
        Stays(table, i, verb, pieces, best.row);
      }
      MoreAllowed(table, i, pieces, was, allow, hit.Some?);
      i := i + 1;
    }
  }

  lemma IsPrepared(table: seq<Route>, i: nat)
    requires Prepared(table) && i < |table|
    ensures RestOnlyLast(table[i].segments) && DistinctNames(table[i].segments)
  {
    assert Legal(table[i].segments);
  }

  lemma HasBindings(route: seq<Segment>, pieces: seq<string>, params: map<string, string>)
    requires |route| <= |pieces| && Binds(route, pieces, |route|, params)
    ensures Bindings(route, pieces, params)
  {
  }

  lemma IsEarlier(table: seq<Route>, i: nat, verb: string, pieces: seq<string>, k: nat)
    requires i <= |table| && Chosen(table, i, verb, pieces, k)
    ensures k < i
  {
  }

  lemma FirstHit(table: seq<Route>, i: nat, verb: string, pieces: seq<string>)
    requires i < |table| && Hit(table[i], verb, pieces) && forall k :: 0 <= k < i ==> !Hit(table[k], verb, pieces)
    ensures Chosen(table, i + 1, verb, pieces, i)
  {
    hide Matches;
    NotMore(table[i].segments);
  }

  lemma Stays(table: seq<Route>, i: nat, verb: string, pieces: seq<string>, k: nat)
    requires i < |table| && Chosen(table, i, verb, pieces, k)
    requires Hit(table[i], verb, pieces) ==> !MoreSpecific(table[i].segments, table[k].segments)
    ensures Chosen(table, i + 1, verb, pieces, k)
  {
    hide Matches, MoreSpecific;
  }

  lemma NoneAllowed(table: seq<Route>, pieces: seq<string>)
    ensures Allowed(table, 0, pieces, [])
  {
  }

  lemma NotMore(a: seq<Segment>)
    ensures !MoreSpecific(a, a)
  {
    ComparedByRanks(a, a);
  }

  lemma Overtakes(table: seq<Route>, i: nat, verb: string, pieces: seq<string>, k: nat)
    requires i < |table| && Chosen(table, i, verb, pieces, k) && Hit(table[i], verb, pieces)
    requires MoreSpecific(table[i].segments, table[k].segments)
    ensures Chosen(table, i + 1, verb, pieces, i)
  {
    forall j | 0 <= j < i && Hit(table[j], verb, pieces)
      ensures MoreSpecific(table[i].segments, table[j].segments) && !MoreSpecific(table[j].segments, table[i].segments)
    {
      NotMoreSpecificTwice(table[i].segments, table[k].segments, table[j].segments);
      ComparedByRanks(table[i].segments, table[j].segments);
    }
    NotMore(table[i].segments);
  }

  lemma MoreAllowed(table: seq<Route>, i: nat, pieces: seq<string>, was: seq<string>, allow: seq<string>, hit: bool)
    requires i < |table| && hit == Matches(table[i].segments, pieces) && Allowed(table, i, pieces, was)
    requires allow == if hit && table[i].verb !in was then was + [table[i].verb] else was
    ensures Allowed(table, i + 1, pieces, allow)
  {
    hide Matches;
    forall m ensures m in allow <==> exists k :: 0 <= k < i + 1 && Hit(table[k], m, pieces) {
      if hit && m == table[i].verb {
        assert Hit(table[i], m, pieces);
      }
      if k :| 0 <= k < i && Hit(table[k], m, pieces) {
        assert 0 <= k < i + 1;
      }
    }
  }

  /* ---- a settled table is dispatched without guessing ---- */

  /** The one route that beats every other one that matches. */
  ghost predicate Best(table: seq<Route>, verb: string, pieces: seq<string>, r: Route) {
    && r in table && Hit(r, verb, pieces)
    && forall o :: o in table && o != r && Hit(o, verb, pieces) ==> MoreSpecific(r.segments, o.segments)
  }

  /** In a settled table the row chosen strictly beats every other match. */
  lemma ChosenIsBest(table: seq<Route>, verb: string, pieces: seq<string>, k: nat)
    requires Settled(table) && Chosen(table, |table|, verb, pieces, k)
    ensures Best(table, verb, pieces, table[k])
    ensures forall j :: 0 <= j < |table| && j != k && Hit(table[j], verb, pieces)
              ==> MoreSpecific(table[k].segments, table[j].segments)
  {
    forall j | 0 <= j < |table| && j != k && Hit(table[j], verb, pieces)
      ensures MoreSpecific(table[k].segments, table[j].segments)
    {
      if !MoreSpecific(table[k].segments, table[j].segments) {
        var low, high := if k < j then k else j, if k < j then j else k;
        UndecidedMeansSameShape(table[low].segments, table[high].segments, pieces);
        assert false;
      }
    }
  }

  /** So no route is chosen over a narrower one: a row that matches only what the chosen one matches as well is not
      among the matches. */
  lemma NarrowerIsNotPassedOver(table: seq<Route>, verb: string, pieces: seq<string>, k: nat, j: nat)
    requires Settled(table) && Chosen(table, |table|, verb, pieces, k)
    requires j < |table| && j != k && Legal(table[k].segments) && Legal(table[j].segments)
    requires Covers(table[k].segments, table[j].segments)
    ensures !Hit(table[j], verb, pieces)
  {
    if Hit(table[j], verb, pieces) {
      ChosenIsBest(table, verb, pieces, k);
      var narrow, wide := table[j].segments, table[k].segments;
      hide Settled, Chosen, Best, Legal, Covers;
      if SameShape(narrow, wide) {
        SameShapeMatchesSame(narrow, wide, pieces);
      } else {
        NarrowerIsMoreSpecific(narrow, wide);
        ComparedByRanks(narrow, wide);
      }
      assert false;
    }
  }

  lemma BestIsOne(table: seq<Route>, verb: string, pieces: seq<string>, r: Route, s: Route)
    requires Best(table, verb, pieces, r) && Best(table, verb, pieces, s)
    ensures r == s
  {
    if r != s {
      ComparedByRanks(r.segments, s.segments);
    }
  }

  lemma TwiceInSequence<T>(s: seq<T>, x: T) returns (i: nat, j: nat)
    requires multiset(s)[x] >= 2
    ensures i < j < |s| && s[i] == x && s[j] == x
  {
    i :| 0 <= i < |s| && s[i] == x;
    var rest := s[..i] + s[i + 1..];
    assert s == s[..i] + [x] + s[i + 1..];
    assert multiset(s) == multiset(rest) + multiset{x};
    assert x in multiset(rest);
    var k :| 0 <= k < |rest| && rest[k] == x;
    if k < i {
      i, j := k, i;
    } else {
      j := k + 1;
    }
  }

  lemma TwoRows<T>(s: seq<T>, i: nat, j: nat)
    requires i < j < |s| && s[i] == s[j]
    ensures multiset(s)[s[i]] >= 2
  {
    assert s == s[..j] + ([s[j]] + s[j + 1..]);
    assert s[i] in s[..j];
    assert multiset(s) == multiset(s[..j]) + multiset([s[j]] + s[j + 1..]);
    assert s[j] in [s[j]] + s[j + 1..];
  }

  /** Being settled does not depend on the order of the declarations. */
  lemma SettledInAnyOrder(table: seq<Route>, other: seq<Route>)
    requires Settled(table) && multiset(table) == multiset(other)
    ensures Settled(other)
  {
    forall i | 0 <= i < |other| ensures Legal(other[i].segments) {
      assert other[i] in multiset(table);
    }
    forall i, j | 0 <= i < j < |other| && other[i].verb == other[j].verb
      ensures !SameShape(other[i].segments, other[j].segments)
    {
      if other[i] == other[j] {
        TwoRows(other, i, j);
        var a, b := TwiceInSequence(table, other[i]);
        assert false;
      } else {
        assert other[i] in multiset(table) && other[j] in multiset(table);
        var a :| 0 <= a < |table| && table[a] == other[i];
        var b :| 0 <= b < |table| && table[b] == other[j];
        assert a != b;
      }
    }
  }

  /** The route chosen does not depend on the order of the declarations. */
  lemma ChosenInAnyOrder(table: seq<Route>, other: seq<Route>, verb: string, pieces: seq<string>, k: nat, k': nat)
    requires Settled(table) && multiset(table) == multiset(other)
    requires Chosen(table, |table|, verb, pieces, k) && Chosen(other, |other|, verb, pieces, k')
    ensures table[k] == other[k']
  {
    SettledInAnyOrder(table, other);
    ChosenIsBest(table, verb, pieces, k);
    ChosenIsBest(other, verb, pieces, k');
    assert forall r :: r in table <==> r in multiset(table);
    assert forall r :: r in other <==> r in multiset(other);
    assert Best(table, verb, pieces, other[k']);
    BestIsOne(table, verb, pieces, table[k], other[k']);
  }
}
