/**
  What the load-time check of one scope of a `server` block reports (`src/frontend.c`, `srv_check_scope`),
  and what a scope without a report guarantees to dispatch.
*/
module ServerScope {
  import opened Wrappers
  import opened RoutePaths
  import opened RouteOrder
  import opened RouteTable

  datatype Spot = Spot(line: int, column: int)

  datatype Item =
    | Directive(word: string, strings: nat, at: Spot)
    | Handler(word: string, path: string, closeWord: Option<string>, params: nat, at: Spot)
    | Site(at: Spot)
    | Hook(word: string, at: Spot)

  datatype Refusal =
    | NotOneDirectory
    | RootTwice
    | ProxyInSite
    | ProxyMissing
    | UnknownDirective(word: string)
    | UnknownVerb(word: string)
    | ClosedBy(word: string, path: string, close: string)
    | NotOneParameter(word: string, path: string)
    | BadPath(word: string, path: string, problem: Problem)
    | Duplicate(word: string, path: string, first: int)
    | Indistinct(word: string, path: string, other: string, otherPath: string)
    | SiteInSite
    | HookInSite(word: string)
    | UnknownHook(word: string)

  datatype Diagnostic = Diagnostic(at: Spot, refusal: Refusal)

  const VERBS := ["get", "post", "put", "delete", "patch", "head", "options", "stream"]

  /** `srv_method_of`: a stream answers GET. */
  function VerbOf(word: string): string { if word == "stream" then "get" else word }

  predicate IsRoot(item: Item) { item.Directive? && item.word == "root" }

  predicate IsRoute(item: Item) { item.Handler? && item.word in VERBS }

  predicate SomeRoot(items: seq<Item>) { exists i :: 0 <= i < |items| && IsRoot(items[i]) }

  function When(c: bool, at: Spot, refusal: Refusal): seq<Diagnostic> {
    if c then [Diagnostic(at, refusal)] else []
  }

  /** The handlers with a known verb. */
  function Routed(items: seq<Item>): (r: seq<Item>)
    ensures forall i :: 0 <= i < |r| ==> r[i].Handler?
  {
    if items == [] then []
    else
      var last := items[|items| - 1];
      Routed(items[..|items| - 1]) + if IsRoute(last) then [last] else []
  }

  /** What two routes with good paths report against each other. */
  function Clash(earlier: Item, item: Item): seq<Diagnostic>
    requires earlier.Handler? && item.Handler? && Parse(item.path).Ok?
  {
    var p := Parse(earlier.path);
    if p.Bad? || VerbOf(earlier.word) != VerbOf(item.word) then []
    else if earlier.path == item.path then
      [Diagnostic(item.at, Duplicate(item.word, item.path, earlier.at.line))]
    else if SameShape(p.value, Parse(item.path).value) then
      [Diagnostic(item.at, Indistinct(earlier.word, earlier.path, item.word, item.path))]
    else []
  }

  function Clashes(earlier: seq<Item>, item: Item): seq<Diagnostic>
    requires item.Handler? && Parse(item.path).Ok? && forall i :: 0 <= i < |earlier| ==> earlier[i].Handler?
  {
    if earlier == [] then []
    else Clashes(earlier[..|earlier| - 1], item) + Clash(earlier[|earlier| - 1], item)
  }

  function HandlerReport(earlier: seq<Item>, item: Item): seq<Diagnostic>
    requires item.Handler?
  {
    if item.word !in VERBS then [Diagnostic(item.at, UnknownVerb(item.word))]
    else
      HeadReport(item)
      + match Parse(item.path)
        case Bad(p) => [Diagnostic(item.at, BadPath(item.word, item.path, p))]
        case Ok(_) => Clashes(Routed(earlier), item)
  }

  function HeadReport(item: Item): seq<Diagnostic>
    requires item.Handler?
  {
    (match item.closeWord
     case None => []
     case Some(close) => When(close != item.word, item.at, ClosedBy(item.word, item.path, close)))
    + When(item.params != 1, item.at, NotOneParameter(item.word, item.path))
  }

  /** What one item reports, given the items before it. */
  function ItemReport(earlier: seq<Item>, item: Item, isDefault: bool): seq<Diagnostic> {
    match item
    case Directive(word, strings, at) =>
      if word == "root" then
        When(strings != 1, at, NotOneDirectory) + When(SomeRoot(earlier), at, RootTwice)
      else if word == "trust_proxy" then
        if !isDefault then [Diagnostic(at, ProxyInSite)] else When(strings < 1, at, ProxyMissing)
      else [Diagnostic(at, UnknownDirective(word))]
    case Handler(_, _, _, _, _) => HandlerReport(earlier, item)
    case Site(at) => When(!isDefault, at, SiteInSite)
    case Hook(word, at) =>
      if !isDefault then [Diagnostic(at, HookInSite(word))] else When(word != "drain", at, UnknownHook(word))
  }

  function ScopeReport(items: seq<Item>, isDefault: bool): seq<Diagnostic> {
    if items == [] then []
    else
      var n := |items| - 1;
      ScopeReport(items[..n], isDefault) + ItemReport(items[..n], items[n], isDefault)
  }

  /* ---- what no report means ---- */

  /** The item is in order by itself. */
  ghost predicate Orderly(item: Item, isDefault: bool) {
    match item
    case Directive(word, strings, _) =>
      (word == "root" && strings == 1) || (word == "trust_proxy" && isDefault && strings >= 1)
    case Handler(word, path, close, params, _) =>
      word in VERBS && (close.None? || close.value == word) && params == 1 && Parse(path).Ok?
    case Site(_) => isDefault
    case Hook(word, _) => isDefault && word == "drain"
  }

  ghost predicate OneRoot(items: seq<Item>) {
    forall i, j :: 0 <= i < j < |items| ==> !(IsRoot(items[i]) && IsRoot(items[j]))
  }

  /** The table that dispatch is given. */
  function TableOf(items: seq<Item>): (t: seq<Route>)
    ensures forall i :: 0 <= i < |t| ==> Legal(t[i].segments)
  {
    if items == [] then []
    else
      var last := items[|items| - 1];
      TableOf(items[..|items| - 1])
      + if IsRoute(last) && Parse(last.path).Ok? then (ParsedIsSpelled(last.path); [RouteOf(last)]) else []
  }

  function RouteOf(item: Item): Route
    requires item.Handler? && Parse(item.path).Ok?
  {
    Route(VerbOf(item.word), item.path, Parse(item.path).value)
  }

  lemma ClashIffTie(earlier: Item, item: Item)
    requires earlier.Handler? && item.Handler? && Parse(item.path).Ok?
    ensures Clash(earlier, item) == [] <==> !(Parse(earlier.path).Ok? && Ties(RouteOf(earlier), RouteOf(item)))
  {
  }

  lemma {:induction false} ClashesIffTie(items: seq<Item>, item: Item)
    requires item.Handler? && Parse(item.path).Ok?
    ensures Clashes(Routed(items), item) == [] <==>
      forall k :: 0 <= k < |TableOf(items)| ==> !Ties(TableOf(items)[k], RouteOf(item))
  {
    hide Parse, SameShape, VerbOf, Ties, Clash, Legal, RouteOf;
    if items != [] {
      var before, last := items[..|items| - 1], items[|items| - 1];
      ClashesIffTie(before, item);
      if IsRoute(last) {
        ClashIffTie(last, item);
        assert Routed(items)[..|Routed(items)| - 1] == Routed(before);
        Appended(before, last, TableOf(items), item);
      } else {
        assert Routed(items) == Routed(before) && TableOf(items) == TableOf(before);
      }
    }
  }

  lemma Appended(before: seq<Item>, last: Item, table: seq<Route>, item: Item)
    requires item.Handler? && Parse(item.path).Ok? && IsRoute(last)
    requires table == TableOf(before) + if Parse(last.path).Ok? then [RouteOf(last)] else []
    ensures (forall k :: 0 <= k < |table| ==> !Ties(table[k], RouteOf(item))) <==>
      (forall k :: 0 <= k < |TableOf(before)| ==> !Ties(TableOf(before)[k], RouteOf(item)))
      && !(Parse(last.path).Ok? && Ties(RouteOf(last), RouteOf(item)))
  {
    hide Parse, SameShape, VerbOf, Ties, Legal, RouteOf, TableOf;
    var t := TableOf(before);
    assert forall k :: 0 <= k < |t| ==> table[k] == t[k];
    if Parse(last.path).Ok? {
      assert table[|t|] == RouteOf(last);
    }
  }

  lemma SettledGrows(table: seq<Route>, r: Route)
    requires Legal(r.segments)
    ensures Settled(table + [r]) <==> Settled(table) && forall k :: 0 <= k < |table| ==> !Ties(table[k], r)
  {
    hide Legal, SameShape;
    var t := table + [r];
    assert forall k :: 0 <= k < |table| ==> t[k] == table[k];
    assert t[|table|] == r;
    if Settled(t) {
      assert forall k :: 0 <= k < |table| ==> Legal(t[k].segments);
    }
  }

  ghost predicate InOrder(items: seq<Item>, isDefault: bool) {
    (forall i :: 0 <= i < |items| ==> Orderly(items[i], isDefault)) && OneRoot(items) && Settled(TableOf(items))
  }

  lemma InOrderGrows(before: seq<Item>, last: Item, isDefault: bool)
    requires Settled(TableOf(before + [last])) ==> Settled(TableOf(before))
    ensures InOrder(before + [last], isDefault) <==>
      (InOrder(before, isDefault) && Orderly(last, isDefault) && !(IsRoot(last) && SomeRoot(before))
       && Settled(TableOf(before + [last])))
  {
    hide Orderly, OneRoot, TableOf, Settled, SomeRoot, IsRoot;
    var items := before + [last];
    RootsGrow(before, last);
    assert items[|before|] == last && forall i :: 0 <= i < |before| ==> items[i] == before[i];
  }

  /** A scope is reported on unless every item is in order, there is at most one root, and the table
      is settled. */
  lemma {:induction false} NoReportIffSettled(items: seq<Item>, isDefault: bool)
    ensures ScopeReport(items, isDefault) == [] <==> InOrder(items, isDefault)
  {
    if items != [] {
      var n := |items| - 1;
      var before, last := items[..n], items[n];
      NoReportIffSettled(before, isDefault);
      SettledBefore(before, isDefault);
      hide ItemReport, Orderly, TableOf, Settled, OneRoot, InOrder, SomeRoot, IsRoot;
      assert items == before + [last];
      LastItem(before, last, isDefault);
      InOrderGrows(before, last, isDefault);
    }
  }

  lemma SettledBefore(before: seq<Item>, isDefault: bool)
    ensures InOrder(before, isDefault) ==> Settled(TableOf(before))
  {
  }

  lemma RootsGrow(before: seq<Item>, last: Item)
    ensures OneRoot(before + [last]) <==> OneRoot(before) && !(IsRoot(last) && SomeRoot(before))
  {
    var items := before + [last];
    assert items[|before|] == last && forall i :: 0 <= i < |before| ==> items[i] == before[i];
  }

  lemma ItemIsOrderly(before: seq<Item>, last: Item, isDefault: bool)
    ensures ItemReport(before, last, isDefault) == [] <==>
      (Orderly(last, isDefault) && !(IsRoot(last) && SomeRoot(before))
       && (IsRoute(last) && Parse(last.path).Ok? ==> Clashes(Routed(before), last) == []))
  {
    hide Clashes, Parse, SomeRoot, Routed;
  }

  lemma LastItem(before: seq<Item>, last: Item, isDefault: bool)
    requires Settled(TableOf(before)) || ScopeReport(before, isDefault) != []
    ensures ScopeReport(before, isDefault) == [] ==>
      (ItemReport(before, last, isDefault) == [] <==>
        Orderly(last, isDefault) && !(IsRoot(last) && SomeRoot(before)) && Settled(TableOf(before + [last])))
    ensures Settled(TableOf(before + [last])) ==> Settled(TableOf(before))
  {
    var items := before + [last];
    assert items[..|items| - 1] == before;
    hide Settled, Ties, Clashes, Parse, SomeRoot, ScopeReport, Legal, ItemReport, Orderly, IsRoot;
    ItemIsOrderly(before, last, isDefault);
    if IsRoute(last) && Parse(last.path).Ok? {
      ClashesIffTie(before, last);
      ParsedIsSpelled(last.path);
      SettledGrows(TableOf(before), RouteOf(last));
      assert TableOf(items) == TableOf(before) + [RouteOf(last)];
    } else {
      assert TableOf(items) == TableOf(before);
    }
  }

  /** Dispatch over a scope that was not reported on never guesses: the row chosen strictly beats every other
      that matches, and any other order of the same routes gives the same answer. */
  lemma AcceptedNeverGuesses(items: seq<Item>, isDefault: bool, other: seq<Route>, verb: string, path: string,
                             found: Found, found': Found)
    requires ScopeReport(items, isDefault) == [] && multiset(other) == multiset(TableOf(items))
    requires Answers(TableOf(items), |TableOf(items)|, verb, Pieces(path), found)
    requires Answers(other, |other|, verb, Pieces(path), found')
    ensures found.Found? == found'.Found?
    ensures found.Found? ==> TableOf(items)[found.row] == other[found'.row] && found.params == found'.params
    ensures found.Found? ==>
      forall j :: 0 <= j < |TableOf(items)| && j != found.row && Hit(TableOf(items)[j], verb, Pieces(path)) ==>
        MoreSpecific(TableOf(items)[found.row].segments, TableOf(items)[j].segments)
  {
    var table, pieces := TableOf(items), Pieces(path);
    NoReportIffSettled(items, isDefault);
    hide ScopeReport, TableOf, Settled, Pieces, MoreSpecific, Matches;
    SameHits(table, other, verb, pieces);
    if found.Found? && found'.Found? {
      ChosenIsBest(table, verb, pieces, found.row);
      ChosenInAnyOrder(table, other, verb, pieces, found.row, found'.row);
      BindingsAreOne(table[found.row].segments, pieces, found.params, found'.params);
    }
  }

  lemma SameHits(table: seq<Route>, other: seq<Route>, verb: string, pieces: seq<string>)
    requires multiset(table) == multiset(other)
    ensures (exists k :: 0 <= k < |table| && Hit(table[k], verb, pieces)) <==>
      (exists k :: 0 <= k < |other| && Hit(other[k], verb, pieces))
  {
    hide Hit;
    assert forall r :: r in table <==> r in multiset(table);
    assert forall r :: r in other <==> r in multiset(other);
    if k :| 0 <= k < |table| && Hit(table[k], verb, pieces) {
      assert table[k] in other;
    }
    if k :| 0 <= k < |other| && Hit(other[k], verb, pieces) {
      assert other[k] in table;
    }
  }

  lemma BindingsAreOne(route: seq<Segment>, pieces: seq<string>, a: map<string, string>, b: map<string, string>)
    requires Bindings(route, pieces, a) && Bindings(route, pieces, b)
    ensures a == b
  {
    hide Bound;
    assert forall key :: key in a <==> key in b;
  }
}
