/** What every run of the mailbox protocol keeps: order, no loss, no duplication. */
module ProtocolRuns {
  import opened Bytes
  import opened Frames
  import opened Connection
  import opened InboxService
  import opened Protocol

  ghost predicate Tagged(log: seq<Queued>, links: map<nat, Link>) {
    forall i :: 0 <= i < |log| ==> log[i].from in links
  }

  ghost predicate Inv(w: World) {
    && WfInbox(w.inbox)
    && |w.inbox.queue| <= 1
    && Books(All(w.inbox), w.links, Log(w))
    && Tagged(Log(w), w.links)
  }

  function Pushed(c: Conn, s: Served): seq<Queued> {
    if s.got.Some? then [Queued(c.id, s.got.value)] else []
  }

  lemma UniqueAfter(cs: seq<Conn>, j: nat, repl: seq<Conn>)
    requires Unique(cs) && j < |cs| && |repl| <= 1
    requires repl != [] ==> repl[0].id == cs[j].id
    ensures Unique(cs[..j] + repl + cs[j + 1..])
  {
    var cs', d := cs[..j] + repl + cs[j + 1..], 1 - |repl|;
    forall i | 0 <= i < |cs'|
      ensures cs'[i].id == if i < j then cs[i].id else cs[i + d].id
    {
    }
  }

  lemma MembersAfter<T>(cs: seq<T>, j: nat, repl: seq<T>, c: T)
    requires j < |cs|
    ensures c in cs[..j] + repl + cs[j + 1..] <==> c in cs[..j] || c in repl || c in cs[j + 1..]
    ensures c in cs <==> c in cs[..j] || c == cs[j] || c in cs[j + 1..]
  {
    assert cs == cs[..j] + [cs[j]] + cs[j + 1..];
  }

  lemma OthersDiffer(cs: seq<Conn>, j: nat, c: Conn)
    requires Unique(cs) && j < |cs|
    ensures c in cs[..j] || c in cs[j + 1..] ==> c.id != cs[j].id
  {
    if c in cs[..j] {
      var i :| 0 <= i < j && cs[..j][i] == c;
      assert cs[i] == c;
    }
    if c in cs[j + 1..] {
      var i :| 0 <= i < |cs[j + 1..]| && cs[j + 1..][i] == c;
      assert cs[j + 1 + i] == c;
    }
  }

  /** Replacing one connection by its survivor, in terms of members. */
  lemma ConnsAfter(cs: seq<Conn>, j: nat, repl: seq<Conn>)
    requires Unique(cs) && j < |cs| && |repl| <= 1
    requires forall c :: c in repl ==> c.id == cs[j].id
    ensures var cs' := cs[..j] + repl + cs[j + 1..];
      && Unique(cs')
      && (forall c :: c in cs' ==> c in repl || (c in cs && c.id != cs[j].id))
      && Ids(cs') == if repl == [] then Ids(cs) - {cs[j].id} else Ids(cs)
  {
    hide Unique;
    var cs' := cs[..j] + repl + cs[j + 1..];
    UniqueAfter(cs, j, repl);
    forall c
      ensures c in cs' <==> c in repl || (c in cs && c.id != cs[j].id)
    {
      MembersAfter(cs, j, repl, c);
      OthersDiffer(cs, j, c);
    }
    if repl != [] {
      assert repl[0] in cs' && cs[j] in cs;
    }
  }

  lemma TakenAfter(log: seq<Queued>, c: Conn, s: Served, id: nat)
    ensures TakenFrom(log + Pushed(c, s), id) ==
      TakenFrom(log, id) + (if id == c.id && s.got.Some? then [s.got.value] else [])
  {
    if s.got.Some? {
      TakenOneMore(log, Queued(c.id, s.got.value), id);
    } else {
      assert log + [] == log;
    }
  }

  lemma InBooksStill(c: Conn, links: map<nat, Link>, log: seq<Queued>, log': seq<Queued>)
    requires InBooks(c, links, log)
    requires c.id in links ==> TakenFrom(log', c.id) == TakenFrom(log, c.id)
    ensures InBooks(c, links, log')
  {
  }

  /** Books stay right when one connection is replaced or settled and nobody else's takings change. */
  lemma BooksAfterOne(cs: seq<Conn>, links: map<nat, Link>, log: seq<Queued>, log': seq<Queued>,
                      j: nat, repl: seq<Conn>)
    requires Books(cs, links, log) && j < |cs| && |repl| <= 1
    requires forall id :: id in links && id != cs[j].id ==> TakenFrom(log', id) == TakenFrom(log, id)
    requires forall c :: c in repl ==> c.id == cs[j].id && InBooks(c, links, log')
    requires repl == [] && cs[j].id in links ==> Settled(links[cs[j].id], TakenFrom(log', cs[j].id))
    ensures Books(cs[..j] + repl + cs[j + 1..], links, log')
  {
    assert cs[j] in cs && cs[j].id in Ids(cs);
    assert Unique(cs);
    hide *;
    ConnsAfter(cs, j, repl);
    BooksOfMembers(cs, cs[..j] + repl + cs[j + 1..], links, log, log', cs[j].id, repl);
  }

  lemma BooksOfMembers(cs: seq<Conn>, cs': seq<Conn>, links: map<nat, Link>, log: seq<Queued>, log': seq<Queued>,
                       id: nat, repl: seq<Conn>)
    requires Books(cs, links, log) && Unique(cs') && id in Ids(cs)
    requires forall c :: c in cs' ==> c in repl || (c in cs && c.id != id)
    requires Ids(cs') == if repl == [] then Ids(cs) - {id} else Ids(cs)
    requires forall o :: o in links && o != id ==> TakenFrom(log', o) == TakenFrom(log, o)
    requires forall c :: c in repl ==> InBooks(c, links, log')
    requires repl == [] && id in links ==> Settled(links[id], TakenFrom(log', id))
    ensures Books(cs', links, log')
  {
    hide Settled, WfLink, TakenFrom, Ids, Unique, InBooks;
    forall c | c in cs'
      ensures InBooks(c, links, log')
    {
      if c !in repl {
        InBooksStill(c, links, log, log');
      }
    }
  }

  lemma BooksAfterServe(cs: seq<Conn>, links: map<nat, Link>, log: seq<Queued>, j: nat)
    requires Books(cs, links, log) && j < |cs| && WfConn(cs[j])
    ensures var s := ServiceConn(cs[j]);
      Books(cs[..j] + Survivor(s) + cs[j + 1..], links, log + Pushed(cs[j], s))
  {
    var c := cs[j];
    assert InBooks(c, links, log);
    var s := ServiceConn(c);
    ServiceKeepsWf(c);
    AccountAfterServe(c, links[c.id], TakenFrom(log, c.id));
    hide ServiceConn, Account, Settled, WfLink, CapSize, TakenFrom, Ids, Pushed, Unique;
    forall id | id in links
      ensures id != c.id ==> TakenFrom(log + Pushed(c, s), id) == TakenFrom(log, id)
    {
      TakenAfter(log, c, s, id);
      assert TakenFrom(log, id) + [] == TakenFrom(log, id);
    }
    TakenAfter(log, c, s, c.id);
    BooksAfterOne(cs, links, log, log + Pushed(c, s), j, Survivor(s));
  }

  lemma BooksAfterVisit(ib: Inbox, j: nat, links: map<nat, Link>, log: seq<Queued>)
    requires WfInbox(ib) && ib.backlog == [] && ib.queue == [] && j < |ib.conns|
    requires Books(ib.conns, links, log) && Tagged(log, links)
    ensures var r := Visit(ib, j).0;
      && r.backlog == [] && |r.queue| <= 1
      && Books(r.conns, links, log + r.queue) && Tagged(log + r.queue, links)
  {
    var r := Visit(ib, j).0;
    VisitShape(ib, j);
    BooksAfterServe(ib.conns, links, log, j);
    BooksHoldIds(ib.conns, links, log, j);
    hide ServiceConn, Visit, Books, WfInbox;
    assert r.queue == Pushed(ib.conns[j], ServiceConn(ib.conns[j]));
  }

  lemma {:induction false} BooksAfterLoop(ib: Inbox, i: nat, tries: nat, links: map<nat, Link>, log: seq<Queued>)
    requires WfInbox(ib) && ib.backlog == [] && |ib.queue| <= 1
    requires Books(ib.conns, links, log + ib.queue) && Tagged(log + ib.queue, links)
    ensures var r := ServiceLoop(ib, i, tries);
      && r.backlog == [] && |r.queue| <= 1
      && Books(r.conns, links, log + r.queue) && Tagged(log + r.queue, links)
      && ib.queue <= r.queue
    decreases tries
  {
    hide Visit, Books, Tagged, WfInbox;
    if tries == 0 || ib.queue != [] || ib.conns == [] {
    } else {
      assert log + ib.queue == log;
      var j := if i >= |ib.conns| then 0 else i;
      BooksAfterVisit(ib, j, links, log);
      var v := Visit(ib, j);
      BooksAfterLoop(v.0, v.1, tries - 1, links, log);
    }
  }

  lemma BooksHoldIds(cs: seq<Conn>, links: map<nat, Link>, log: seq<Queued>, j: nat)
    requires Books(cs, links, log) && j < |cs|
    ensures cs[j].id in links
  {
    assert InBooks(cs[j], links, log);
  }

  lemma InvAfterService(w: World, ib: Inbox)
    requires WfInbox(ib) && |ib.queue| <= 1
    requires Books(All(ib), w.links, w.received + ib.queue) && Tagged(w.received + ib.queue, w.links)
    ensures Inv(w.(inbox := Service(ib)))
    ensures ib.queue <= Service(ib).queue
  {
    var a := AcceptAll(ib);
    var r := Service(ib);
    hide ServiceLoop, Books;
    if a.queue != [] || a.conns == [] || (a.startupOnly && |a.conns| <= a.startupIndex) {
      assert r == a;
    } else {
      var i := if a.startupOnly then a.startupIndex else a.nextRead % |a.conns|;
      var tries := if a.startupOnly then 1 else |a.conns|;
      BooksAfterLoop(a, i, tries, w.links, w.received);
      assert r == ServiceLoop(a, i, tries);
    }
    assert All(r) == r.conns;
  }

  // ----- what the other steps do to one account -----

  /** The bytes a send writes are added to the stream and to the wire alike; FULL adds none. */
  lemma WrittenAfterSend(l: Link, f: Frame, o: SendOutcome) returns (x: bytes)
    requires WfLink(l) && !l.hungUp && Sendable(f) && (o.SentError? ==> o.wrote < |Encode(f)|)
    ensures var l' := AfterSend(l, f, o);
      && Written(l') == Written(l) + x && l'.wire == l.wire + x
      && WfLink(l') && (o.SentFull? ==> x == []) && (o.SentOk? ==> x == Encode(f))
  {
    hide Encode;
    match o
    case SentOk =>
      x := Encode(f);
      EncodeAllConcat(l.sent, [f]);
      assert EncodeAll([f]) == Encode(f);
    case SentFull => x := [];
    case SentError(k) => x := Encode(f)[..k];
  }

  lemma AccountAfterSend(c: Conn, l: Link, t: seq<Item>, f: Frame, o: SendOutcome)
    requires WfLink(l) && !l.hungUp && Sendable(f) && (o.SentError? ==> o.wrote < |Encode(f)|)
    requires Account(c, l, t)
    ensures Account(c, AfterSend(l, f, o), t)
  {
    var x := WrittenAfterSend(l, f, o);
    hide Written, EncodeAll, Stream, Encode;
    var seen := EncodeAll(FramesOf(t)) + Stream(c);
    assert seen + (l.wire + x) == (seen + l.wire) + x;
  }

  lemma SettledAfterSend(l: Link, t: seq<Item>, f: Frame, o: SendOutcome)
    requires WfLink(l) && !l.hungUp && Sendable(f) && (o.SentError? ==> o.wrote < |Encode(f)|)
    requires Settled(l, t)
    ensures Settled(AfterSend(l, f, o), t)
  {
    var x := WrittenAfterSend(l, f, o);
    hide Written, Items, Encode;
    CorruptIsLast(Written(l), x);
  }

  lemma AccountAfterDeliver(c: Conn, l: Link, t: seq<Item>, n: nat)
    requires WfLink(l) && Account(c, l, t) && !l.reset && 1 <= n <= |l.wire|
    ensures var data: Chunk := l.wire[..n];
      Account(c.(input := c.input + [Arrived(data)]), l.(wire := l.wire[n..]), t)
  {
    var data: Chunk := l.wire[..n];
    FlightAppends(c.input, Arrived(data));
    var c', l' := c.(input := c.input + [Arrived(data)]), l.(wire := l.wire[n..]);
    assert !HasEnd(c'.input) by {
      assert !HasEnd(c.input);
    }
    assert Written(l') == Written(l);
    assert Stream(c') == Stream(c) + data;
    hide Written, EncodeAll, Flight, HasEnd, Stream;
    assert data + l.wire[n..] == l.wire;
    Regroup(EncodeAll(FramesOf(t)), Stream(c), data, l.wire[n..]);
  }

  lemma Regroup(a: bytes, b: bytes, c: bytes, d: bytes)
    ensures a + (b + c) + d == a + b + (c + d)
  {
  }

  lemma AccountAfterLull(c: Conn, l: Link, t: seq<Item>)
    requires Account(c, l, t)
    ensures Account(c.(input := c.input + [WouldBlock]), l, t)
  {
    FlightAppends(c.input, WouldBlock);
    EndAfterAppend(c.input, WouldBlock);
  }

  lemma EndAfterAppend(input: seq<RecvEvent>, e: RecvEvent)
    ensures HasEnd(input + [e]) <==> HasEnd(input) || e.Ended? || e.Reset?
  {
    if HasEnd(input) {
      var i :| 0 <= i < |input| && (input[i].Ended? || input[i].Reset?);
      assert (input + [e])[i] == input[i];
    }
    assert (input + [e])[|input|] == e;
  }

  lemma AccountAfterEnd(c: Conn, l: Link, t: seq<Item>)
    requires Account(c, l, t)
    ensures Account(c.(input := c.input + [Ended]), l.(ended := true), t)
  {
    FlightAppends(c.input, Ended);
    assert Written(l.(ended := true)) == Written(l);
  }

  lemma AccountAfterDeath(c: Conn, l: Link, t: seq<Item>, keep: nat)
    requires Account(c, l, t)
    ensures Account(c.(input := Changed(c.input, CutShort(keep))), l.(wire := [], hungUp := true, reset := true), t)
  {
    var k := if keep <= |c.input| then keep else |c.input|;
    FlightOfCut(c.input, k);
    var l' := l.(wire := [], hungUp := true, reset := true);
    var c' := c.(input := Changed(c.input, CutShort(keep)));
    assert Written(l') == Written(l);
    hide Written, EncodeAll, Flight;
    assert Stream(c') <= Stream(c);
    var e := EncodeAll(FramesOf(t));
    assert e + Stream(c') <= e + Stream(c);
  }

  // ----- the books after every step -----

  ghost predicate SameButOne(cs: seq<Conn>, cs': seq<Conn>, id: nat) {
    && |cs'| == |cs|
    && forall i :: 0 <= i < |cs| ==> cs'[i].id == cs[i].id && (cs[i].id != id ==> cs'[i] == cs[i])
  }

  lemma SameIds(cs: seq<Conn>, cs': seq<Conn>, id: nat)
    requires SameButOne(cs, cs', id)
    ensures Ids(cs') == Ids(cs) && (Unique(cs) ==> Unique(cs'))
  {
    forall o
      ensures o in Ids(cs') <==> o in Ids(cs)
    {
      if o in Ids(cs) {
        var i :| 0 <= i < |cs| && cs[i].id == o;
        assert cs'[i] in cs';
      }
      if o in Ids(cs') {
        var i :| 0 <= i < |cs'| && cs'[i].id == o;
        assert cs[i] in cs;
      }
    }
  }

  lemma InBooksNow(c: Conn, links: map<nat, Link>, log: seq<Queued>, l: Link)
    requires WfConn(c) && Account(c, l, TakenFrom(log, c.id))
    ensures InBooks(c, links[c.id := l], log)
  {
  }

  lemma InBooksOther(c: Conn, links: map<nat, Link>, log: seq<Queued>, id: nat, l: Link)
    requires InBooks(c, links, log) && c.id != id
    ensures InBooks(c, links[id := l], log)
  {
  }

  lemma MembersAfterChange(cs: seq<Conn>, cs': seq<Conn>, links: map<nat, Link>, log: seq<Queued>, id: nat, l: Link)
    requires SameButOne(cs, cs', id) && id in links
    requires forall c :: c in cs ==> InBooks(c, links, log)
    requires forall i :: 0 <= i < |cs| && cs[i].id == id ==>
      WfConn(cs'[i]) && Account(cs'[i], l, TakenFrom(log, id))
    ensures forall c :: c in cs' ==> InBooks(c, links[id := l], log)
  {
    hide TakenFrom, Account, WfConn, InBooks;
    forall i | 0 <= i < |cs'|
      ensures InBooks(cs'[i], links[id := l], log)
    {
      assert cs[i] in cs;
      if cs[i].id == id {
        InBooksNow(cs'[i], links, log, l);
      } else {
        InBooksOther(cs[i], links, log, id, l);
      }
    }
  }

  lemma BooksFromMembers(cs: seq<Conn>, cs': seq<Conn>, links: map<nat, Link>, log: seq<Queued>, id: nat, l: Link)
    requires Books(cs, links, log) && Unique(cs') && Ids(cs') == Ids(cs) && WfLink(l)
    requires forall c :: c in cs' ==> InBooks(c, links[id := l], log)
    requires id !in Ids(cs) ==> Settled(l, TakenFrom(log, id))
    ensures Books(cs', links[id := l], log)
  {
    hide Settled, WfLink, TakenFrom, Ids, Unique, InBooks;
  }

  /** Books stay right when link `id`, and what the reads of connection `id` will answer, change together. */
  lemma BooksAfterChange(cs: seq<Conn>, cs': seq<Conn>, links: map<nat, Link>, log: seq<Queued>, id: nat, l: Link)
    requires Books(cs, links, log) && SameButOne(cs, cs', id) && id in links && WfLink(l)
    requires forall i :: 0 <= i < |cs| && cs[i].id == id ==>
      WfConn(cs'[i]) && Account(cs'[i], l, TakenFrom(log, id))
    requires id !in Ids(cs) ==> Settled(l, TakenFrom(log, id))
    ensures Books(cs', links[id := l], log)
  {
    hide Settled, WfLink, TakenFrom, Ids, Account, WfConn, InBooks, SameButOne;
    SameIds(cs, cs', id);
    MembersAfterChange(cs, cs', links, log, id, l);
    BooksFromMembers(cs, cs', links, log, id, l);
  }

  lemma AllAfterFeed(ib: Inbox, id: nat, ch: Change)
    ensures All(Feed(ib, id, ch)) == FeedConns(All(ib), id, ch)
    ensures SameButOne(All(ib), All(Feed(ib, id, ch)), id)
  {
    var a, b := All(Feed(ib, id, ch)), FeedConns(All(ib), id, ch);
    forall i | 0 <= i < |a|
      ensures a[i] == b[i]
    {
    }
  }

  lemma AccountOf(cs: seq<Conn>, links: map<nat, Link>, log: seq<Queued>, i: nat)
    requires Books(cs, links, log) && i < |cs|
    ensures cs[i].id in links && WfConn(cs[i]) && Account(cs[i], links[cs[i].id], TakenFrom(log, cs[i].id))
  {
    assert InBooks(cs[i], links, log);
  }
}
