/** Round-robin fairness: a connection with a frame to give waits for at most one frame from any other. */
module Fairness {
  import opened Wrappers
  import opened Connection
  import opened InboxService
  import opened Protocol
  import opened ProtocolRuns
  import opened RunTheorems
  import opened Wakeups
  import opened Startup

  /** The connections that have been served since the log was `base` long. */
  ghost function ServedSince(log: seq<Queued>, base: nat): set<nat>
    requires base <= |log|
  {
    set i | base <= i < |log| :: log[i].from
  }

  ghost predicate EachOnce(log: seq<Queued>, base: nat) {
    forall i, j :: base <= i < j < |log| ==> log[i].from != log[j].from
  }

  /** Connection `k` stands in the ring with a frame to give, and nobody before it has been served. */
  ghost predicate NextInLine(ring: seq<Conn>, k: nat, served: set<nat>) {
    exists p: nat :: InLineAt(ring, k, served, p)
  }

  ghost predicate InLineAt(ring: seq<Conn>, k: nat, served: set<nat>, p: nat) {
    && p < |ring| && ring[p].id == k && WfConn(ring[p]) && Ready(ring[p])
    && forall q :: 0 <= q < p ==> ring[q].id !in served
  }

  ghost predicate Fair(w: World, k: nat, base: nat) {
    && base <= |Log(w)|
    && !w.inbox.startupOnly && w.inbox.nextRead <= |w.inbox.conns|
    && (k !in ServedSince(Log(w), base) ==>
          && EachOnce(Log(w), base)
          && NextInLine(Ring(w.inbox), k, ServedSince(Log(w), base))
          && forall b :: b in w.inbox.backlog ==> b.id !in ServedSince(Log(w), base))
  }

  // ----- walking the ring -----

  /** The walk stops no later than at a connection that is ready. */
  lemma {:induction false} WalkStopsBy(ring: seq<Conn>, p: nat) returns (h: nat)
    requires forall i :: 0 <= i < |ring| ==> WfConn(ring[i])
    requires p < |ring| && WfConn(ring[p]) && Ready(ring[p])
    ensures h <= p
    ensures WalkRing(ring).hit == Some(ServiceConn(ring[h])) && WalkRing(ring).left == ring[h + 1..]
    ensures ServiceConn(ring[h]).conn.id == ring[h].id
    decreases |ring|
  {
    hide ServiceConn, CapSize;
    ServiceKeepsWf(ring[0]);
    if ServiceConn(ring[0]).got.Some? {
      h := 0;
    } else {
      var t := WalkStopsBy(ring[1..], p - 1);
      h := t + 1;
      assert ring[1..][t + 1..] == ring[h + 1..];
    }
  }

  lemma InLineAfterAccept(cs: seq<Conn>, at: nat, more: seq<Conn>, k: nat, served: set<nat>)
    requires at <= |cs| && NextInLine(Rot(cs, at), k, served)
    requires forall c :: c in more ==> c.id !in served
    ensures NextInLine(Rot(cs + more, at), k, served)
  {
    hide Ready, WfConn;
    var ring, ring' := Rot(cs, at), Rot(cs + more, at);
    assert ring' == cs[at..] + more + cs[..at];
    var p: nat :| InLineAt(ring, k, served, p);
    var d := |cs| - at;
    var p' := if p < d then p else p + |more|;
    assert ring'[p'] == ring[p];
    forall q | 0 <= q < p'
      ensures ring'[q].id !in served
    {
      if q < d {
        assert ring'[q] == ring[q];
      } else if q < d + |more| {
        assert ring'[q] == more[q - d];
        assert more[q - d] in more;
      } else {
        assert ring'[q] == ring[q - |more|];
      }
    }
    assert InLineAt(ring', k, served, p');
  }

  /** Those behind the connection just served move up, and it goes to the back. */
  lemma LineMovesUp(ring: seq<Conn>, h: nat, p: nat, k: nat, served: set<nat>, rest: seq<Conn>)
    requires forall i, j :: 0 <= i < j < |ring| ==> ring[i].id != ring[j].id
    requires InLineAt(ring, k, served, p) && h < p
    ensures ring[h].id != k && ring[h].id !in served
    ensures NextInLine(ring[h + 1..] + rest, k, served + {ring[h].id})
  {
    hide Ready, WfConn;
    var line := ring[h + 1..] + rest;
    var p' := p - h - 1;
    assert line[p'] == ring[p];
    forall q | 0 <= q < p'
      ensures line[q].id !in served + {ring[h].id}
    {
      assert line[q] == ring[q + h + 1];
    }
    assert InLineAt(line, k, served + {ring[h].id}, p');
  }

  /** One pass over a ring where `k` is next in line: it serves `k`, or somebody not served before, who
      then stands behind `k`. */
  lemma PassIsFair(ring: seq<Conn>, k: nat, served: set<nat>, rest: seq<Conn>)
    requires forall i :: 0 <= i < |ring| ==> WfConn(ring[i])
    requires forall i, j :: 0 <= i < j < |ring| ==> ring[i].id != ring[j].id
    requires NextInLine(ring, k, served)
    ensures var w := WalkRing(ring);
      && w.hit.Some?
      && var id := w.hit.value.conn.id;
         id != k ==> (id !in served && NextInLine(w.left + rest, k, served + {id}))
  {
    hide Ready, WfConn, WalkRing, ServiceConn;
    var p: nat :| InLineAt(ring, k, served, p);
    var h := WalkStopsBy(ring, p);
    if h < p {
      LineMovesUp(ring, h, p, k, served, rest);
    }
  }

  lemma RotUnique(cs: seq<Conn>, at: nat)
    requires at <= |cs| && Unique(cs)
    ensures forall i, j :: 0 <= i < j < |cs| ==> Rot(cs, at)[i].id != Rot(cs, at)[j].id
  {
  }

  /** A service past startup with an empty queue, where `k` is next in line. */
  lemma ServiceIsFair(a: Inbox, k: nat, served: set<nat>)
    requires WfInbox(a) && a.queue == [] && a.conns != [] && Unique(a.conns)
    requires NextInLine(Ring(a), k, served)
    ensures var r := ServiceLoop(a, a.nextRead % |a.conns|, |a.conns|);
      && |r.queue| == 1
      && var id := r.queue[0].from;
         id != k ==> id !in served && NextInLine(Ring(r), k, served + {id})
  {
    hide ServiceConn, ServiceLoop, WalkRing, NextInLine, CapSize, Rot;
    var i := a.nextRead % |a.conns|;
    assert At(a, i, 0);
    LoopIsWalk(a, i, 0);
    var ring, r := Ring(a), ServiceLoop(a, i, |a.conns|);
    assert ring[0..] == ring && ring[..0] == [];
    RotUnique(a.conns, a.nextRead);
    var w := WalkRing(ring);
    var rest := [] + w.passed + (if w.hit.Some? then Survivor(w.hit.value) else []);
    PassIsFair(ring, k, served, rest);
    assert Ring(r) == w.left + rest;
  }

  // ----- every step -----

  lemma ServedOneMore(log: seq<Queued>, q: Queued, base: nat)
    requires base <= |log|
    ensures ServedSince(log + [q], base) == ServedSince(log, base) + {q.from}
    ensures EachOnce(log, base) && q.from !in ServedSince(log, base) ==> EachOnce(log + [q], base)
  {
    var l := log + [q];
    assert forall i :: base <= i < |log| ==> l[i] == log[i];
    assert l[|log|] == q;
    forall id
      ensures id in ServedSince(l, base) <==> id in ServedSince(log, base) || id == q.from
    {
      if id in ServedSince(log, base) {
        var i :| base <= i < |log| && log[i].from == id;
        assert l[i].from == id;
      }
    }
  }

  /** What remains fair when the inbox, whose queue continues `received`, is serviced. */
  lemma FairAfterService(w: World, k: nat, base: nat)
    requires Inv(w) && Fair(w, k, base)
    ensures Fair(w.(inbox := Service(w.inbox)), k, base)
  {
    var a, r := AcceptAll(w.inbox), Service(w.inbox);
    var log := Log(w);
    var w' := w.(inbox := r);
    assert Unique(a.conns);
    LogGrows(w, w.inbox, w.received);
    if k in ServedSince(log, base) {
      ServedKept(log, Log(w'), base, k);
      FairRest(a);
    } else {
      InLineAccepted(w.inbox, k, ServedSince(log, base));
      if a.queue == [] {
        assert log == w.received;
        LineIsNotEmpty(Ring(a), k, ServedSince(log, base));
        ServiceIsFair(a, k, ServedSince(log, base));
        FairRest(a);
        hide NextInLine, ServiceLoop, Inv, ServedSince, EachOnce;
        assert Log(w') == log + [r.queue[0]];
        ServedOneMore(log, r.queue[0], base);
      }
    }
  }

  lemma LineIsNotEmpty(ring: seq<Conn>, k: nat, served: set<nat>)
    requires NextInLine(ring, k, served)
    ensures ring != []
  {
  }

  lemma FairRest(a: Inbox)
    requires WfInbox(a) && !a.startupOnly
    ensures !ServiceAccepted(a).startupOnly
    ensures a.queue == [] && a.conns != [] ==>
      ServiceAccepted(a) == ServiceLoop(a, a.nextRead % |a.conns|, |a.conns|)
    ensures a.backlog == [] ==> ServiceAccepted(a).backlog == []
  {
    if a.queue == [] && a.conns != [] {
      NeverRestarts(a, a.nextRead % |a.conns|, |a.conns|);
      NoNewBacklog(a, a.nextRead % |a.conns|, |a.conns|);
    }
  }

  lemma {:induction false} NoNewBacklog(ib: Inbox, i: nat, tries: nat)
    requires WfInbox(ib)
    ensures ServiceLoop(ib, i, tries).backlog == ib.backlog
    decreases tries
  {
    if tries == 0 || ib.queue != [] || ib.conns == [] {
    } else {
      var v := Visit(ib, if i >= |ib.conns| then 0 else i);
      NoNewBacklog(v.0, v.1, tries - 1);
    }
  }

  lemma ServedKept(log: seq<Queued>, log': seq<Queued>, base: nat, k: nat)
    requires base <= |log| && log <= log' && k in ServedSince(log, base)
    ensures k in ServedSince(log', base)
  {
    var i :| base <= i < |log| && log[i].from == k;
    assert log'[i] == log[i];
  }

  lemma InLineAccepted(ib: Inbox, k: nat, served: set<nat>)
    requires ib.nextRead <= |ib.conns| && NextInLine(Ring(ib), k, served)
    requires forall b :: b in ib.backlog ==> b.id !in served
    ensures NextInLine(Ring(AcceptAll(ib)), k, served)
  {
    var a := AcceptAll(ib);
    var more := a.conns[|ib.conns|..];
    assert a.conns == ib.conns + more;
    forall c | c in more
      ensures c.id !in served
    {
      var i :| 0 <= i < |more| && more[i] == c;
      assert ib.backlog[i] in ib.backlog;
    }
    InLineAfterAccept(ib.conns, ib.nextRead, more, k, served);
  }

  lemma FairAfterFeed(w: World, k: nat, base: nat, id: nat, ch: Change, links: map<nat, Link>)
    requires WfInbox(w.inbox) && Fair(w, k, base)
    requires ch.Append? || id != k
    ensures Fair(World(Feed(w.inbox, id, ch), links, w.received), k, base)
  {
    var ib, ib' := w.inbox, Feed(w.inbox, id, ch);
    var served := ServedSince(Log(w), base);
    if k !in served {
      var ring, ring' := Ring(ib), Ring(ib');
      var p: nat :| InLineAt(ring, k, served, p);
      forall q | 0 <= q < |ring|
        ensures ring'[q].id == ring[q].id
        ensures ring'[q] == if ring[q].id == id then ring[q].(input := Changed(ring[q].input, ch)) else ring[q]
      {
      }
      if id == k {
        ReadyStays(ring[p], ch.event);
      }
      hide Ready;
      assert InLineAt(ring', k, served, p);
      forall b | b in ib'.backlog
        ensures b.id !in served
      {
        var i :| 0 <= i < |ib'.backlog| && ib'.backlog[i] == b;
        assert ib.backlog[i] in ib.backlog;
      }
    }
  }

  lemma FairAfterConnect(w: World, k: nat, base: nat, id: nat)
    requires Inv(w) && Fair(w, k, base) && Enabled(w, Connect(id))
    ensures Fair(Apply(w, Connect(id)), k, base)
  {
    hide Books, NextInLine;
    assert id !in ServedSince(Log(w), base);
  }

  lemma FairAfterTaken(w: World, k: nat, base: nat)
    requires Inv(w) && Fair(w, k, base) && w.inbox.queue != []
    ensures Fair(Apply(w, TakeHead), k, base)
  {
    var ib := w.inbox.(queue := w.inbox.queue[1..]);
    var w1 := World(ib, w.links, w.received + [w.inbox.queue[0]]);
    assert Log(w1) == Log(w);
    assert Inv(w1) by {
      assert All(ib) == All(w.inbox);
    }
    hide Service, Inv;
    FairAfterService(w1, k, base);
  }

  lemma FairStep(w: World, k: nat, base: nat, s: Step)
    requires Inv(w) && WfInbox(w.inbox) && Fair(w, k, base)
    requires !(s.Die? && s.id == k)
    ensures Fair(Apply(w, s), k, base)
  {
    hide Inv, Feed, Service, WfInbox, All;
    if Enabled(w, s) {
      var links := Apply(w, s).links;
      match s
      case Connect(id) => hide Fair, Apply; FairAfterConnect(w, k, base, id);
      case Send(id, f, o) =>
      case HangUp(id) =>
      case Deliver(id, n) =>
        hide Fair;
        var data: Chunk := w.links[id].wire[..n];
        FairAfterFeed(w, k, base, id, Append(Arrived(data)), links);
      case Lull(id) => hide Fair; FairAfterFeed(w, k, base, id, Append(WouldBlock), links);
      case Finish(id) => hide Fair; FairAfterFeed(w, k, base, id, Append(Ended), links);
      case Die(id, keep) => hide Fair; FairAfterFeed(w, k, base, id, CutShort(keep), links);
      case RunService => hide Fair; FairAfterService(w, k, base);
      case TakeHead => hide Fair, Apply; FairAfterTaken(w, k, base);
    }
  }

  lemma {:induction false} FairRun(w: World, k: nat, base: nat, steps: seq<Step>)
    requires Inv(w) && Fair(w, k, base)
    requires forall i :: 0 <= i < |steps| ==> !(steps[i].Die? && steps[i].id == k)
    ensures Fair(Run(w, steps), k, base)
    decreases |steps|
  {
    if steps != [] {
      hide Inv, Apply, Fair;
      InvStep(w, steps[0]);
      FeedKeepsWf(w, steps[0]);
      FairStep(w, k, base, steps[0]);
      FairRun(Apply(w, steps[0]), k, base, steps[1..]);
    }
  }

  /** From any state past startup in which connection `k` has a frame to give, over any run in which
      its sender does not die: until a frame of `k` is queued, no other connection has two frames queued. */
  lemma AtMostOneEach(w: World, k: nat, steps: seq<Step>)
    requires Inv(w) && !w.inbox.startupOnly
    requires exists c :: c in w.inbox.conns && c.id == k && WfConn(c) && Ready(c)
    requires forall i :: 0 <= i < |steps| ==> !(steps[i].Die? && steps[i].id == k)
    ensures var w', base := Run(w, steps), |Log(w)|;
      && |Log(w')| >= base
      && (k !in ServedSince(Log(w'), base) ==> EachOnce(Log(w'), base))
  {
    var c :| c in w.inbox.conns && c.id == k && WfConn(c) && Ready(c);
    RotMembers(w.inbox.conns, w.inbox.nextRead, c);
    var ring := Ring(w.inbox);
    var p :| 0 <= p < |ring| && ring[p] == c;
    assert ServedSince(Log(w), |Log(w)|) == {};
    assert InLineAt(ring, k, {}, p);
    hide Inv;
    FairRun(w, k, |Log(w)|, steps);
  }

  /** And somebody is always served: while `k` has a frame to give, a service that finds the queue empty queues one,
      of `k` or of another. */
  lemma ReadyMeansProgress(w: World, k: nat)
    requires Inv(w) && !w.inbox.startupOnly && w.inbox.queue == []
    requires exists c :: c in w.inbox.conns && c.id == k && WfConn(c) && Ready(c)
    ensures |Service(w.inbox).queue| == 1
  {
    var ib := w.inbox;
    var c :| c in ib.conns && c.id == k && WfConn(c) && Ready(c);
    RotMembers(ib.conns, ib.nextRead, c);
    var p :| 0 <= p < |Ring(ib)| && Ring(ib)[p] == c;
    assert InLineAt(Ring(ib), k, {}, p);
    InLineAccepted(ib, k, {});
    ServiceIsFair(AcceptAll(ib), k, {});
  }

  // ----- how long a connection may wait -----

  function Members(ids: seq<nat>): set<nat> { set id <- ids }

  /** All connections, and all served since the log was `base` long, are among `ids`. */
  ghost predicate Among(w: World, base: nat, ids: set<nat>) {
    base <= |Log(w)| && ServedSince(Log(w), base) <= ids && Ids(All(w.inbox)) <= ids
  }

  lemma VisitIds(ib: Inbox, j: nat)
    requires WfInbox(ib) && j < |ib.conns| && ib.queue == []
    ensures var r := Visit(ib, j).0;
      Ids(r.conns) <= Ids(ib.conns) && |r.queue| <= 1 && forall q :: q in r.queue ==> q.from in Ids(ib.conns)
  {
    VisitShape(ib, j);
    ServiceKeepsWf(ib.conns[j]);
    assert ib.conns[j] in ib.conns;
    hide ServiceConn, Visit, CapSize;
    forall c | c in Visit(ib, j).0.conns ensures c.id in Ids(ib.conns) {
      assert c.id == ib.conns[j].id || c in ib.conns;
    }
  }

  lemma {:induction false} LoopIds(ib: Inbox, i: nat, tries: nat)
    requires WfInbox(ib)
    ensures var r := ServiceLoop(ib, i, tries);
      && Ids(r.conns) <= Ids(ib.conns)
      && (ib.queue != [] ==> r.queue == ib.queue)
      && (ib.queue == [] ==> |r.queue| <= 1 && forall q :: q in r.queue ==> q.from in Ids(ib.conns))
    decreases tries
  {
    hide Visit, WfInbox, Ids;
    if tries == 0 || ib.queue != [] || ib.conns == [] {
    } else {
      var j := if i >= |ib.conns| then 0 else i;
      var v := Visit(ib, j);
      VisitIds(ib, j);
      LoopIds(v.0, v.1, tries - 1);
    }
  }

  lemma ServiceIds(ib: Inbox)
    requires WfInbox(ib)
    ensures var r := Service(ib);
      && r.backlog == [] && Ids(r.conns) <= Ids(All(ib))
      && (ib.queue != [] ==> r.queue == ib.queue)
      && (ib.queue == [] ==> |r.queue| <= 1 && forall q :: q in r.queue ==> q.from in Ids(All(ib)))
  {
    var a := AcceptAll(ib);
    if a.queue == [] && a.conns != [] {
      if a.startupOnly {
        LoopIds(a, a.startupIndex, 1);
        NoNewBacklog(a, a.startupIndex, 1);
      } else {
        LoopIds(a, a.nextRead % |a.conns|, |a.conns|);
        NoNewBacklog(a, a.nextRead % |a.conns|, |a.conns|);
      }
    }
  }

  lemma AmongServed(w: World, base: nat, ids: set<nat>, received: seq<Queued>, ib: Inbox)
    requires WfInbox(ib) && received + ib.queue == Log(w) && Ids(All(ib)) <= ids && Among(w, base, ids) && |ib.queue| <= 1
    ensures Among(World(Service(ib), w.links, received), base, ids)
  {
    var r := Service(ib);
    var log := Log(World(r, w.links, received));
    ServiceIds(ib);
    assert All(r) == r.conns;
    forall i | base <= i < |log| ensures log[i].from in ids {
      if i < |Log(w)| {
        assert log[i] == Log(w)[i] && Log(w)[i].from in ServedSince(Log(w), base);
      } else {
        assert log[i] in r.queue;
      }
    }
  }

  lemma AmongStep(w: World, base: nat, ids: set<nat>, s: Step)
    requires Inv(w) && WfInbox(w.inbox) && Among(w, base, ids)
    ensures Among(Apply(w, s), base, ids + Members(MadeBy(w.links.Keys, s)))
  {
    hide Inv, Service, ServedSince;
    if Enabled(w, s) {
      match s
      case Connect(id) => AllAfterConnect(w, id); IdsAfterConnect(All(w.inbox), id);
      case Send(_, _, _) =>
      case HangUp(_) =>
      case Deliver(id, n) => AmongFed(w, id, Append(Arrived(w.links[id].wire[..n])));
      case Lull(id) => AmongFed(w, id, Append(WouldBlock));
      case Finish(id) => AmongFed(w, id, Append(Ended));
      case Die(id, keep) => AmongFed(w, id, CutShort(keep));
      case RunService => QueueIsShort(w); AmongServed(w, base, ids, w.received, w.inbox);
      case TakeHead =>
        QueueIsShort(w);
        AmongServed(w, base, ids, w.received + [w.inbox.queue[0]], w.inbox.(queue := w.inbox.queue[1..]));
    }
  }

  lemma QueueIsShort(w: World)
    requires Inv(w)
    ensures |w.inbox.queue| <= 1
  {
  }

  lemma IdsAfterConnect(cs: seq<Conn>, id: nat)
    ensures Ids(cs + [Conn(id, [], [], 0)]) == Ids(cs) + {id}
  {
    var c := Conn(id, [], [], 0);
    assert c in cs + [c];
    forall x ensures x in Ids(cs + [c]) <==> x in Ids(cs) || x == id {
      if x in Ids(cs) {
        var o :| o in cs && o.id == x;
        assert o in cs + [c];
      }
    }
  }

  lemma AmongFed(w: World, id: nat, ch: Change)
    ensures Ids(All(Feed(w.inbox, id, ch))) == Ids(All(w.inbox)) && Feed(w.inbox, id, ch).queue == w.inbox.queue
  {
    AllSameIds(w, id, ch);
    SameIds(All(w.inbox), All(Feed(w.inbox, id, ch)), id);
  }

  lemma {:induction false} AmongRun(w: World, base: nat, ids: set<nat>, steps: seq<Step>)
    requires Inv(w) && Among(w, base, ids)
    ensures Among(Run(w, steps), base, ids + Members(Made(w.links.Keys, steps)))
    decreases |steps|
  {
    if steps == [] {
      assert ids + Members(Made(w.links.Keys, steps)) == ids;
    } else {
      hide Inv, Apply, Among, MadeBy, Made, Run;
      RunOnce(w, steps);
      MadeOnce(w.links.Keys, steps);
      InvStep(w, steps[0]);
      AmongStep(w, base, ids, steps[0]);
      LinksAfter(w, steps[0]);
      var w', now := Apply(w, steps[0]), MadeBy(w.links.Keys, steps[0]);
      AmongRun(w', base, ids + Members(now), steps[1..]);
      var later := Made(w'.links.Keys, steps[1..]);
      assert ids + Members(now) + Members(later) == ids + Members(now + later);
    }
  }

  lemma {:induction false} EachOnceCounts(log: seq<Queued>, base: nat)
    requires base <= |log| && EachOnce(log, base)
    ensures |ServedSince(log, base)| == |log| - base
    decreases |log|
  {
    if |log| == base {
      assert ServedSince(log, base) == {};
    } else {
      var n := |log| - 1;
      var before := log[..n];
      EachOnceCounts(before, base);
      assert log == before + [log[n]];
      ServedOneMore(before, log[n], base);
      assert forall i :: base <= i < n ==> before[i].from != log[n].from;
    }
  }

  lemma {:induction false} NoMoreThanListed(ids: seq<nat>)
    ensures |Members(ids)| <= |ids|
  {
    if ids != [] {
      NoMoreThanListed(ids[1..]);
      assert Members(ids) == {ids[0]} + Members(ids[1..]);
    }
  }

  lemma IdsAreListed(cs: seq<Conn>)
    ensures |Ids(cs)| <= |cs|
  {
    var ids := seq(|cs|, i requires 0 <= i < |cs| => cs[i].id);
    NoMoreThanListed(ids);
    assert Ids(cs) == Members(ids) by {
      forall id ensures id in Ids(cs) <==> id in ids {
        if id in Ids(cs) {
          var c :| c in cs && c.id == id;
          var i :| 0 <= i < |cs| && cs[i] == c;
          assert ids[i] == id;
        }
      }
    }
  }

  lemma FewerThan(served: set<nat>, present: set<nat>, made: set<nat>, k: nat)
    requires served <= present + made && k !in served && k in present
    ensures |served| <= |present| - 1 + |made|
  {
    var others := present - {k} + made;
    Subset(served, others);
    assert |present - {k}| == |present| - 1;
    UnionIsSmall(present - {k}, made);
  }

  lemma Subset(a: set<nat>, b: set<nat>)
    requires a <= b
    ensures |a| <= |b|
  {
    assert b == a + (b - a);
  }

  lemma UnionIsSmall(a: set<nat>, b: set<nat>)
    ensures |a + b| <= |a| + |b|
  {
    assert a + b == a + (b - a);
    Subset(b - a, b);
  }

  /** The wait is bounded: from any state past startup in which connection `k` has a frame to give, over any run in
      which its sender does not die, no more frames of others are queued before one of `k` than there are other
      connections, those made during the run included. */
  lemma WaitIsBounded(w: World, k: nat, steps: seq<Step>)
    requires Inv(w) && !w.inbox.startupOnly
    requires exists c :: c in w.inbox.conns && c.id == k && WfConn(c) && Ready(c)
    requires forall i :: 0 <= i < |steps| ==> !(steps[i].Die? && steps[i].id == k)
    ensures var w', base := Run(w, steps), |Log(w)|;
      |Log(w')| - base > |All(w.inbox)| - 1 + |Made(w.links.Keys, steps)| ==> k in ServedSince(Log(w'), base)
  {
    var w', base, made := Run(w, steps), |Log(w)|, Made(w.links.Keys, steps);
    StartsAmong(w, k);
    AtMostOneEach(w, k, steps);
    hide Inv, Run, Made, Ready, WfConn, Ids, ServedSince, EachOnce, All, Members;
    AmongRun(w, base, Ids(All(w.inbox)), steps);
    if k !in ServedSince(Log(w'), base) {
      EachOnceCounts(Log(w'), base);
      IdsAreListed(All(w.inbox));
      NoMoreThanListed(made);
      FewerThan(ServedSince(Log(w'), base), Ids(All(w.inbox)), Members(made), k);
    }
  }

  lemma StartsAmong(w: World, k: nat)
    requires exists c :: c in w.inbox.conns && c.id == k
    ensures k in Ids(All(w.inbox)) && Among(w, |Log(w)|, Ids(All(w.inbox)))
  {
    var c :| c in w.inbox.conns && c.id == k;
    assert c in All(w.inbox);
    assert ServedSince(Log(w), |Log(w)|) == {};
  }

  // ----- newcomers -----

  /** A connection that has a frame to give as soon as it is accepted. */
  predicate GivesAtOnce(c: Waiting) {
    var s := ServiceConn(Conn(c.id, c.input, [], 0));
    s.got.Some? && !s.gone
  }

  /** Before each dequeue one more connection is made. */
  function JoinThenTake(ib: Inbox, newcomers: seq<Waiting>): (r: Inbox)
    requires WfInbox(ib) && |ib.queue| == 1 && !ib.startupOnly && ib.nextRead == |ib.conns|
    requires forall c :: c in newcomers ==> GivesAtOnce(c)
    ensures WfInbox(r) && |r.queue| == 1
    decreases |newcomers|
  {
    if newcomers == [] then ib
    else
      NewcomerGoesFirst(ib, newcomers[0]);
      JoinThenTake(Dequeue(ib.(backlog := [newcomers[0]])), newcomers[1..])
  }

  /** With the turn at the end of the list, a connection that joins there is served before everybody. */
  lemma NewcomerGoesFirst(ib: Inbox, c: Waiting)
    requires WfInbox(ib) && |ib.queue| == 1 && !ib.startupOnly && ib.nextRead == |ib.conns| && GivesAtOnce(c)
    ensures var r := Dequeue(ib.(backlog := [c]));
      && WfInbox(r) && |r.queue| == 1 && !r.startupOnly && r.nextRead == |r.conns| == |ib.conns| + 1
      && r.queue[0].from == c.id && r.conns[..|ib.conns|] == ib.conns && r.backlog == []
  {
    var d := ib.(backlog := [c], queue := []);
    assert ib.queue[1..] == [];
    var a := AcceptAll(d);
    var n := |ib.conns|;
    assert a.conns == ib.conns + [Conn(c.id, c.input, [], 0)];
    assert n % (n + 1) == n;
    VisitShape(a, n);
    var v := Visit(a, n);
    hide ServiceConn, Visit, CapSize;
    assert ServiceLoop(a, n, n + 1) == ServiceLoop(v.0, v.1, n) == v.0;
  }

  /** So nothing bounds the wait but the newcomers: for as many of them as join one before each dequeue, the
      connections that were there, ready or not, are passed over. */
  lemma {:induction false} NewcomersGoFirst(ib: Inbox, newcomers: seq<Waiting>)
    requires WfInbox(ib) && |ib.queue| == 1 && !ib.startupOnly && ib.nextRead == |ib.conns|
    requires newcomers != [] && forall c :: c in newcomers ==> GivesAtOnce(c)
    ensures var r := JoinThenTake(ib, newcomers);
      && r.queue[0].from == newcomers[|newcomers| - 1].id
      && |r.conns| == |ib.conns| + |newcomers| && r.conns[..|ib.conns|] == ib.conns
    decreases |newcomers|
  {
    NewcomerGoesFirst(ib, newcomers[0]);
    var next := Dequeue(ib.(backlog := [newcomers[0]]));
    hide Dequeue, GivesAtOnce;
    if |newcomers| > 1 {
      NewcomersGoFirst(next, newcomers[1..]);
      var r := JoinThenTake(next, newcomers[1..]);
      assert r.conns[..|ib.conns|] == r.conns[..|next.conns|][..|ib.conns|];
    } else {
      assert newcomers[1..] == [];
    }
  }
}
