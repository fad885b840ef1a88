/** No message waits in memory unseen, and who may speak first in a child. */
module Wakeups {
  import opened Wrappers
  import opened Frames
  import opened Connection
  import opened InboxService
  import opened Protocol
  import opened ProtocolRuns
  import opened RunTheorems

  /** No buffer holds a whole frame, nor a stream known to be corrupt. */
  ghost predicate Quiet(cs: seq<Conn>) {
    forall c :: c in cs ==> TakeFrame(c.buf) == NeedMore
  }

  /** Nothing has been read from this connection: not even a buffer was made. */
  predicate Untouched(c: Conn) {
    c.buf == [] && c.cap == 0
  }

  /** Until the first frame is queued, nothing is read but from the connection at `startupIndex`. */
  ghost predicate StartupRule(ib: Inbox, log: seq<Queued>) {
    ib.startupOnly ==>
      && log == []
      && forall i :: 0 <= i < |ib.conns| && i != ib.startupIndex ==> Untouched(ib.conns[i])
  }

  ghost predicate Awake(w: World) {
    && (w.inbox.queue == [] ==> Quiet(w.inbox.conns))
    && StartupRule(w.inbox, Log(w))
  }

  // ----- one service -----

  lemma {:induction false} PassedAreQuiet(todo: seq<Conn>)
    requires forall i :: 0 <= i < |todo| ==> WfConn(todo[i])
    ensures Quiet(WalkRing(todo).passed)
    decreases |todo|
  {
    if todo == [] {
    } else {
      ServiceLeaves(todo[0]);
      hide ServiceConn, TakeFrame;
      PassedAreQuiet(todo[1..]);
    }
  }

  lemma RotMembers<T>(cs: seq<T>, at: nat, c: T)
    requires at <= |cs|
    ensures c in cs <==> c in Rot(cs, at)
  {
    assert cs == cs[..at] + cs[at..];
  }

  lemma QuietAfterPass(ib: Inbox)
    requires WfInbox(ib) && ib.queue == [] && ib.conns != []
    ensures var r := ServiceLoop(ib, ib.nextRead % |ib.conns|, |ib.conns|);
      r.queue == [] ==> Quiet(r.conns)
  {
    hide TakeFrame, ServiceConn, ServiceLoop, WalkRing, Rot, CapSize;
    var i := ib.nextRead % |ib.conns|;
    var r := ServiceLoop(ib, i, |ib.conns|);
    assert At(ib, i, 0);
    LoopIsWalk(ib, i, 0);
    var ring := Ring(ib);
    assert ring[0..] == ring && ring[..0] == [];
    PassedAreQuiet(ring);
    if r.queue == [] {
      var passed := WalkRing(ring).passed;
      assert Ring(r) == [] + passed == passed;
      forall c | c in r.conns
        ensures TakeFrame(c.buf) == NeedMore
      {
        RotMembers(r.conns, r.nextRead, c);
        assert c in passed;
      }
    }
  }

  /** What one visit leaves, when it queues nothing. */
  lemma VisitStartup(ib: Inbox)
    requires WfInbox(ib) && ib.queue == [] && ib.startupOnly && ib.startupIndex < |ib.conns|
    requires forall i :: 0 <= i < |ib.conns| && i != ib.startupIndex ==> Untouched(ib.conns[i])
    ensures var v := Visit(ib, ib.startupIndex).0;
      if v.queue == [] then Quiet(v.conns) && v.startupOnly && v.startupIndex == ib.startupIndex &&
        (forall i :: 0 <= i < |v.conns| && i != v.startupIndex ==> Untouched(v.conns[i]))
      else !v.startupOnly && v.queue[0].from == ib.conns[ib.startupIndex].id
  {
    var k := ib.startupIndex;
    var c := ib.conns[k];
    var s, v := ServiceConn(c), Visit(ib, k).0;
    VisitShape(ib, k);
    ServiceLeaves(c);
    hide ServiceConn, Visit;
    if v.queue == [] {
      assert v.conns == ib.conns[..k] + Survivor(s) + ib.conns[k + 1..];
      forall i | 0 <= i < |v.conns|
        ensures if i == k && !s.gone then v.conns[i] == s.conn else Untouched(v.conns[i])
      {
        if i > k || (i == k && s.gone) {
          assert v.conns[i] == ib.conns[i + 1 - |Survivor(s)|];
        }
      }
    }
  }

  lemma AwakeAfterService(ib: Inbox, log: seq<Queued>)
    requires WfInbox(ib) && |ib.queue| <= 1 && StartupRule(ib, log + ib.queue)
    requires ib.startupOnly && ib.queue == [] ==> Quiet(ib.conns)
    ensures var r := Service(ib);
      (r.queue == [] ==> Quiet(r.conns)) && StartupRule(r, log + r.queue)
  {
    var a, r := AcceptAll(ib), Service(ib);
    assert StartupRule(a, log + a.queue);
    assert a.startupOnly && a.queue == [] ==> Quiet(a.conns) by {
      assert TakeFrame([]) == NeedMore;
    }
    if a.queue != [] || a.conns == [] {
    } else if a.startupOnly {
      if a.startupIndex < |a.conns| {
        VisitStartup(a);
        var v := Visit(a, a.startupIndex);
        assert r == v.0 by {
          assert ServiceLoop(v.0, v.1, 0) == v.0;
        }
      }
    } else {
      hide Quiet, ServiceLoop;
      QuietAfterPass(a);
      NeverRestarts(a, a.nextRead % |a.conns|, |a.conns|);
      assert !r.startupOnly;
    }
  }

  lemma {:induction false} NeverRestarts(ib: Inbox, i: nat, tries: nat)
    requires WfInbox(ib)
    ensures var r := ServiceLoop(ib, i, tries);
      (r.startupOnly ==> ib.startupOnly) && r.startupIndex == ib.startupIndex
    decreases tries
  {
    if tries == 0 || ib.queue != [] || ib.conns == [] {
    } else {
      var v := Visit(ib, if i >= |ib.conns| then 0 else i);
      NeverRestarts(v.0, v.1, tries - 1);
    }
  }

  // ----- every step -----

  lemma AwakeAfterFeed(ib: Inbox, id: nat, ch: Change, log: seq<Queued>)
    requires ib.queue == [] ==> Quiet(ib.conns)
    requires StartupRule(ib, log)
    ensures var r := Feed(ib, id, ch);
      (r.queue == [] ==> Quiet(r.conns)) && StartupRule(r, log)
  {
    var r := Feed(ib, id, ch);
    hide TakeFrame;
    forall i | 0 <= i < |r.conns|
      ensures r.conns[i].buf == ib.conns[i].buf && r.conns[i].cap == ib.conns[i].cap && ib.conns[i] in ib.conns
    {
    }
    forall c | c in r.conns && r.queue == []
      ensures TakeFrame(c.buf) == NeedMore
    {
      var i :| 0 <= i < |r.conns| && r.conns[i] == c;
      assert ib.conns[i] in ib.conns;
    }
  }

  lemma AwakeFed(w: World, id: nat, ch: Change, links: map<nat, Link>)
    requires WfInbox(w.inbox) && Awake(w)
    ensures Awake(World(Feed(w.inbox, id, ch), links, w.received))
  {
    hide Quiet, Feed, WfInbox;
    AwakeAfterFeed(w.inbox, id, ch, Log(w));
    FeedIsWf(w.inbox, id, ch);
  }

  lemma AwakeServed(w: World)
    requires Inv(w) && Awake(w)
    ensures Awake(w.(inbox := Service(w.inbox)))
  {
    hide Quiet, Books, Tagged, Service;
    AwakeAfterService(w.inbox, w.received);
  }

  lemma AwakeTaken(w: World)
    requires Inv(w) && Awake(w) && w.inbox.queue != []
    ensures Awake(Apply(w, TakeHead))
  {
    hide Quiet, Books, Tagged, Service;
    var ib := w.inbox.(queue := w.inbox.queue[1..]);
    assert w.received + [w.inbox.queue[0]] + ib.queue == Log(w);
    AwakeAfterService(ib, w.received + [w.inbox.queue[0]]);
  }

  lemma AwakeStep(w: World, s: Step)
    requires Inv(w) && Awake(w)
    ensures Awake(Apply(w, s))
  {
    if Enabled(w, s) {
      match s
      case Connect(id) =>
      case Send(id, f, o) =>
      case HangUp(id) =>
      case Deliver(id, n) =>
        var data: Chunk := w.links[id].wire[..n];
        hide Awake, Feed;
        AwakeFed(w, id, Append(Arrived(data)), Apply(w, s).links);
      case Lull(id) => hide Awake, Feed; AwakeFed(w, id, Append(WouldBlock), w.links);
      case Finish(id) => hide Awake, Feed; AwakeFed(w, id, Append(Ended), Apply(w, s).links);
      case Die(id, keep) => hide Awake, Feed; AwakeFed(w, id, CutShort(keep), Apply(w, s).links);
      case RunService => hide Awake; AwakeServed(w);
      case TakeHead => hide Awake, Apply; AwakeTaken(w);
    }
  }

  lemma {:induction false} AwakeRun(w: World, steps: seq<Step>)
    requires Inv(w) && Awake(w)
    ensures Inv(Run(w, steps)) && Awake(Run(w, steps))
    decreases |steps|
  {
    if steps == [] {
    } else {
      hide Inv, Awake, Apply;
      InvStep(w, steps[0]);
      AwakeStep(w, steps[0]);
      FeedKeepsWf(w, steps[0]);
      AwakeRun(Apply(w, steps[0]), steps[1..]);
    }
  }

  /** No lost wake-up: over every run, whenever the queue is empty no buffer holds a whole frame. So a
      receive never sleeps in its poll on a message already in memory, and `mailbox_pending`, which
      looks only at the queue, is right after every step. */
  lemma NoLostWakeup(pending: seq<nat>, child: bool, steps: seq<Step>)
    requires Distinct(pending)
    ensures var ib := Run(Opened(pending, child), steps).inbox;
      ib.queue == [] ==> Quiet(ib.conns)
  {
    InvOpened(pending, child);
    AwakeOpened(pending, child);
    AwakeRun(Opened(pending, child), steps);
  }

  lemma AwakeOpened(pending: seq<nat>, child: bool)
    ensures Awake(Opened(pending, child))
  {
    assert TakeFrame([]) == NeedMore;
  }

  /** Until the first frame is queued, nothing has been read from any connection but the one at the
      startup index. */
  lemma OnlyStartupIsRead(pending: seq<nat>, steps: seq<Step>)
    requires Distinct(pending)
    ensures var w := Run(Opened(pending, true), steps);
      w.inbox.startupOnly ==>
        && Log(w) == []
        && forall i :: 0 <= i < |w.inbox.conns| && i != w.inbox.startupIndex ==> Untouched(w.inbox.conns[i])
  {
    InvOpened(pending, true);
    AwakeOpened(pending, true);
    AwakeRun(Opened(pending, true), steps);
  }

  // ----- why line 733 services again -----

  /** Two frames that arrive together: the second is in the buffer when the first has been taken. If the
      head were dequeued without servicing again, the queue would be empty with a message in memory. */
  lemma WithoutTheSecondService(f: Frame)
    requires Deliverable(f) && 2 * |Encode(f)| <= READ_ROOM
    ensures var data: Chunk := Encode(f) + Encode(f);
      var ib := Service(Inbox([], [Conn(7, [Arrived(data)], [], 0)], 0, false, 0, []));
      && ib.queue == [Queued(7, Message(f))]
      && var hasty := ib.(queue := ib.queue[1..]);
         hasty.queue == [] && !Quiet(hasty.conns)
    ensures var data: Chunk := Encode(f) + Encode(f);
      var ib := Service(Inbox([], [Conn(7, [Arrived(data)], [], 0)], 0, false, 0, []));
      Dequeue(ib).queue == [Queued(7, Message(f))]
  {
    var e := Encode(f);
    var data: Chunk := e + e;
    var c := Conn(7, [Arrived(data)], [], 0);
    var c1 := Conn(7, [], data, READ_ROOM);
    TakeOfEncoded(f, e);
    TakeOfEncoded(f, []);
    assert e + [] == e && data[|e|..] == e;
    TakeOfNothing();
    hide TakeFrame, Encode;
    assert Grown(0, 0) == READ_ROOM;
    assert [] + data == data;
    assert Receive(c, READ_ROOM) == c1;
    assert ServiceConn(c1) == Served(Conn(7, [], e, READ_ROOM), Some(Message(f)), false);
    assert ServiceConn(c) == ServiceConn(c1);
    var ib0 := Inbox([], [c], 0, false, 0, []);
    assert AcceptAll(ib0) == ib0;
    OneConnService(ib0);
    var ib := Service(ib0);
    var ib1 := ib.(queue := []);
    assert ib.queue[1..] == [];
    assert ib1.conns[0] in ib1.conns;
    assert AcceptAll(ib1) == ib1;
    OneConnService(ib1);
  }

  lemma TakeOfNothing()
    ensures TakeFrame([]) == NeedMore
  {
  }

  lemma OneConnService(ib: Inbox)
    requires WfInbox(ib) && AcceptAll(ib) == ib && |ib.conns| == 1 && ib.queue == [] && !ib.startupOnly
    requires ServiceConn(ib.conns[0]).got.Some? && !ServiceConn(ib.conns[0]).gone
    ensures var s, r := ServiceConn(ib.conns[0]), Service(ib);
      && r.conns == [s.conn] && r.queue == [Queued(ib.conns[0].id, s.got.value)]
      && r.backlog == [] && !r.startupOnly && r.nextRead == 1
  {
    hide ServiceConn, Visit;
    assert ib.nextRead % 1 == 0;
    VisitShape(ib, 0);
  }
}
