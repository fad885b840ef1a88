/** Theorems about every run of the mailbox protocol. */
module RunTheorems {
  import opened Wrappers
  import opened Frames
  import opened Connection
  import opened InboxService
  import opened Protocol
  import opened ProtocolRuns

  // ----- the invariant, step by step -----

  lemma {:induction false} TakenOfStranger(log: seq<Queued>, id: nat)
    requires forall i :: 0 <= i < |log| ==> log[i].from != id
    ensures TakenFrom(log, id) == []
    decreases |log|
  {
    if log != [] {
      TakenOfStranger(log[..|log| - 1], id);
    }
  }

  lemma IdsWithOneMore(cs: seq<Conn>, c: Conn)
    requires Unique(cs) && c.id !in Ids(cs)
    ensures Unique(cs + [c]) && Ids(cs + [c]) == Ids(cs) + {c.id}
  {
    assert forall i :: 0 <= i < |cs| ==> cs[i] in cs && cs[i].id != c.id;
    assert c in cs + [c];
    forall id
      ensures id in Ids(cs + [c]) <==> id in Ids(cs) || id == c.id
    {
      if id in Ids(cs) {
        var o :| o in cs && o.id == id;
        assert o in cs + [c];
      }
    }
  }

  lemma BooksAfterConnect(cs: seq<Conn>, links: map<nat, Link>, log: seq<Queued>, id: nat)
    requires Books(cs, links, log) && Tagged(log, links) && id !in links
    ensures Books(cs + [Conn(id, [], [], 0)], links[id := Link([], None, [], false, false, false)], log)
  {
    var c, l := Conn(id, [], [], 0), Link([], None, [], false, false, false);
    TakenOfStranger(log, id);
    assert InBooks(c, links[id := l], log);
    assert WfLink(l);
    IdsWithOneMoreFits(cs, links, log, id);
    IdsWithOneMore(cs, c);
    OthersInBooks(cs, links, log, id, l);
    hide InBooks, Ids, Settled, WfLink, TakenFrom, Unique, Tagged;
  }

  lemma IdsWithOneMoreFits(cs: seq<Conn>, links: map<nat, Link>, log: seq<Queued>, id: nat)
    requires Books(cs, links, log) && id !in links
    ensures id !in Ids(cs)
  {
    assert forall c :: c in cs ==> InBooks(c, links, log);
  }

  lemma OthersInBooks(cs: seq<Conn>, links: map<nat, Link>, log: seq<Queued>, id: nat, l: Link)
    requires Books(cs, links, log) && id !in links
    ensures forall c :: c in cs ==> InBooks(c, links[id := l], log)
  {
    forall c | c in cs
      ensures InBooks(c, links[id := l], log)
    {
      assert InBooks(c, links, log);
    }
  }

  lemma InvConnect(w: World, id: nat)
    requires Inv(w) && Enabled(w, Connect(id))
    ensures Inv(Apply(w, Connect(id)))
  {
    var w' := Apply(w, Connect(id));
    BooksAfterConnect(All(w.inbox), w.links, Log(w), id);
    assert All(w'.inbox) == All(w.inbox) + [Conn(id, [], [], 0)];
  }

  lemma InvSend(w: World, id: nat, f: Frame, o: SendOutcome)
    requires Inv(w) && Enabled(w, Send(id, f, o))
    ensures Inv(Apply(w, Send(id, f, o)))
  {
    var cs, l, log := All(w.inbox), w.links[id], Log(w);
    var t := TakenFrom(log, id);
    var x := WrittenAfterSend(l, f, o);
    SameButItself(cs, id);
    hide Account, Settled, TakenFrom, WfConn;
    forall i | 0 <= i < |cs| && cs[i].id == id
      ensures WfConn(cs[i]) && Account(cs[i], AfterSend(l, f, o), t)
    {
      AccountOf(cs, w.links, log, i);
      AccountAfterSend(cs[i], l, t, f, o);
    }
    if id !in Ids(cs) {
      SettledAfterSend(l, t, f, o);
    }
    BooksAfterChange(cs, cs, w.links, log, id, AfterSend(l, f, o));
  }

  lemma SameButItself(cs: seq<Conn>, id: nat)
    ensures SameButOne(cs, cs, id)
  {
  }

  lemma InvHangUp(w: World, id: nat)
    requires Inv(w) && id in w.links
    ensures Inv(Apply(w, HangUp(id)))
  {
    var cs, log := All(w.inbox), Log(w);
    var l := w.links[id].(hungUp := true);
    assert Written(l) == Written(w.links[id]);
    forall i | 0 <= i < |cs| && cs[i].id == id
      ensures WfConn(cs[i]) && Account(cs[i], l, TakenFrom(log, id))
    {
      AccountOf(cs, w.links, log, i);
    }
    BooksAfterChange(cs, cs, w.links, log, id, l);
  }

  /** A step that changes what the reads of connection `id` answer, and its link. */
  lemma InvAfterFeed(w: World, id: nat, ch: Change, l: Link)
    requires Inv(w) && id in w.links && WfLink(l)
    requires Carries(w.links[id], ch, l)
    requires id !in Ids(All(w.inbox)) ==> Settled(l, TakenFrom(Log(w), id))
    ensures Inv(World(Feed(w.inbox, id, ch), w.links[id := l], w.received))
  {
    var cs, log, w' := All(w.inbox), Log(w), World(Feed(w.inbox, id, ch), w.links[id := l], w.received);
    var cs' := All(w'.inbox);
    hide Account, TakenFrom, Settled, Changed, Books, WfLink;
    FeedIsWf(w.inbox, id, ch);
    AllAfterFeed(w.inbox, id, ch);
    hide All, Ids;
    forall i | 0 <= i < |cs| && cs[i].id == id
      ensures WfConn(cs'[i]) && Account(cs'[i], l, TakenFrom(log, id))
    {
      AccountOf(cs, w.links, log, i);
    }
    BooksAfterChange(cs, cs', w.links, log, id, l);
  }

  lemma FeedIsWf(ib: Inbox, id: nat, ch: Change)
    requires WfInbox(ib)
    ensures WfInbox(Feed(ib, id, ch)) && Feed(ib, id, ch).queue == ib.queue
  {
  }

  lemma LinkOf(w: World, id: nat)
    requires Inv(w) && id in w.links
    ensures WfLink(w.links[id])
    ensures id !in Ids(All(w.inbox)) ==> Settled(w.links[id], TakenFrom(Log(w), id))
  {
  }

  /** Every account of link `l` becomes an account of link `m` when the reads change by `ch`. */
  ghost predicate Carries(l: Link, ch: Change, m: Link) {
    forall c: Conn, t :: Account(c, l, t) ==> Account(c.(input := Changed(c.input, ch)), m, t)
  }

  lemma DeliverCarries(l: Link, n: nat)
    requires WfLink(l) && !l.reset && 1 <= n <= |l.wire|
    ensures var data: Chunk := l.wire[..n];
      Carries(l, Append(Arrived(data)), l.(wire := l.wire[n..]))
  {
    hide Account;
    forall c: Conn, t | Account(c, l, t) {
      AccountAfterDeliver(c, l, t, n);
    }
  }

  lemma LullCarries(l: Link)
    ensures Carries(l, Append(WouldBlock), l)
  {
    hide Account;
    forall c: Conn, t | Account(c, l, t) {
      AccountAfterLull(c, l, t);
    }
  }

  lemma FinishCarries(l: Link)
    ensures Carries(l, Append(Ended), l.(ended := true))
  {
    hide Account;
    forall c: Conn, t | Account(c, l, t) {
      AccountAfterEnd(c, l, t);
    }
  }

  lemma DieCarries(l: Link, keep: nat)
    ensures Carries(l, CutShort(keep), l.(wire := [], hungUp := true, reset := true))
  {
    hide Account;
    forall c: Conn, t | Account(c, l, t) {
      AccountAfterDeath(c, l, t, keep);
    }
  }

  lemma LinkChanges(l: Link, n: nat)
    requires WfLink(l)
    ensures n <= |l.wire| ==> WfLink(l.(wire := l.wire[n..]))
    ensures l.hungUp && l.wire == [] ==> WfLink(l.(ended := true))
    ensures WfLink(l.(wire := [], hungUp := true, reset := true))
    ensures forall t :: Settled(l, t) ==> Settled(l.(wire := [], hungUp := true, reset := true), t)
  {
    assert Written(l.(wire := [], hungUp := true, reset := true)) == Written(l);
    hide Written, Items;
  }

  lemma InvDeliver(w: World, id: nat, n: nat)
    requires Inv(w) && Enabled(w, Deliver(id, n))
    ensures Inv(Apply(w, Deliver(id, n)))
  {
    hide Inv, Carries, All, Ids, Feed, Service, Dequeue, AfterSend, WfInbox, TakenFrom, WfLink, Settled, Log;
    LinkOf(w, id);
    var l := w.links[id];
    var data: Chunk := l.wire[..n];
    DeliverCarries(l, n);
    LinkChanges(l, n);
    InvAfterFeed(w, id, Append(Arrived(data)), l.(wire := l.wire[n..]));
  }

  lemma InvLull(w: World, id: nat)
    requires Inv(w) && id in w.links
    ensures Inv(Apply(w, Lull(id)))
  {
    hide Inv, Carries, All, Ids, Feed, Service, Dequeue, AfterSend, WfInbox, TakenFrom, WfLink, Settled, Log;
    LinkOf(w, id);
    LullCarries(w.links[id]);
    InvAfterFeed(w, id, Append(WouldBlock), w.links[id]);
    assert w.links[id := w.links[id]] == w.links;
  }

  lemma InvFinish(w: World, id: nat)
    requires Inv(w) && Enabled(w, Finish(id))
    ensures Inv(Apply(w, Finish(id)))
  {
    hide Inv, Carries, All, Ids, Feed, Service, Dequeue, AfterSend, WfInbox, TakenFrom, WfLink, Settled, Log;
    LinkOf(w, id);
    var l := w.links[id];
    FinishCarries(l);
    LinkChanges(l, 0);
    InvAfterFeed(w, id, Append(Ended), l.(ended := true));
  }

  lemma InvDie(w: World, id: nat, keep: nat)
    requires Inv(w) && id in w.links
    ensures Inv(Apply(w, Die(id, keep)))
  {
    hide Inv, Carries, All, Ids, Feed, Service, Dequeue, AfterSend, WfInbox, TakenFrom, WfLink, Settled, Log;
    LinkOf(w, id);
    var l := w.links[id];
    DieCarries(l, keep);
    LinkChanges(l, 0);
    InvAfterFeed(w, id, CutShort(keep), l.(wire := [], hungUp := true, reset := true));
  }

  lemma InvTakeHead(w: World)
    requires Inv(w) && w.inbox.queue != []
    ensures Inv(Apply(w, TakeHead))
  {
    var ib := w.inbox.(queue := w.inbox.queue[1..]);
    var w1 := World(ib, w.links, w.received + [w.inbox.queue[0]]);
    assert Log(w1) == Log(w);
    assert All(ib) == All(w.inbox);
    hide Books, Service;
    InvAfterService(w1, ib);
  }

  /** Every step keeps the invariant. */
  lemma InvStep(w: World, s: Step)
    requires Inv(w)
    ensures Inv(Apply(w, s))
  {
    if Enabled(w, s) {
      hide Inv, Apply;
      match s
      case Connect(id) => InvConnect(w, id);
      case Send(id, f, o) => InvSend(w, id, f, o);
      case HangUp(id) => InvHangUp(w, id);
      case Deliver(id, n) => InvDeliver(w, id, n);
      case Lull(id) => InvLull(w, id);
      case Finish(id) => InvFinish(w, id);
      case Die(id, keep) => InvDie(w, id, keep);
      case RunService => InvRunService(w);
      case TakeHead => InvTakeHead(w);
    }
  }

  lemma InvRunService(w: World)
    requires Inv(w)
    ensures Inv(Apply(w, RunService))
  {
    hide Books, Service;
    InvAfterService(w, w.inbox);
  }

  lemma InvOpened(pending: seq<nat>, child: bool)
    requires Distinct(pending)
    ensures Inv(Opened(pending, child))
  {
    var w := Opened(pending, child);
    assert All(w.inbox) == w.inbox.conns;
    var cs := w.inbox.conns;
    forall c | c in cs
      ensures InBooks(c, w.links, [])
    {
      var i :| 0 <= i < |cs| && cs[i] == c;
      assert pending[i] in pending;
    }
    forall id | id in w.links
      ensures id in Ids(cs)
    {
      var i :| 0 <= i < |pending| && pending[i] == id;
      assert cs[i] in cs;
    }
  }

  lemma {:induction false} InvRun(w: World, steps: seq<Step>)
    requires Inv(w)
    ensures Inv(Run(w, steps))
    decreases |steps|
  {
    if steps == [] {
    } else {
      hide Inv, Apply;
      InvStep(w, steps[0]);
      FeedKeepsWf(w, steps[0]);
      InvRun(Apply(w, steps[0]), steps[1..]);
    }
  }

  // ----- order, no loss, no duplication -----

  /** Every frame this sender attempted has paths a receiver accepts. */
  ghost predicate Clean(l: Link) {
    && (forall i :: 0 <= i < |l.sent| ==> Deliverable(l.sent[i]))
    && (l.cut.Some? ==> Deliverable(l.cut.value.frame))
  }

  /** What a clean sender has written means exactly the frames whose send answered OK; a frame cut off
      by an error means nothing. */
  lemma WrittenMeansSent(l: Link)
    requires WfLink(l) && Clean(l)
    ensures Items(Written(l)) == Messages(l.sent)
  {
    var tail := if l.cut.Some? then l.cut.value.bytes else [];
    if l.cut.Some? {
      StrictPrefixWaits(l.cut.value.frame, l.cut.value.bytes);
    }
    assert Items(tail) == [];
    ItemsOfEncodeAll(l.sent, tail);
    assert Messages(l.sent) + [] == Messages(l.sent);
  }

  lemma TakenIsWritten(w: World, id: nat)
    requires Inv(w) && id in w.links
    ensures TakenFrom(Log(w), id) <= Items(Written(w.links[id]))
    ensures forall c :: c in All(w.inbox) && c.id == id && !w.links[id].reset ==>
      Items(Written(w.links[id])) == TakenFrom(Log(w), id) + Items(Stream(c) + w.links[id].wire)
  {
    var l, t := w.links[id], TakenFrom(Log(w), id);
    LinkOf(w, id);
    forall c | c in All(w.inbox) && c.id == id
      ensures t <= Items(Written(l))
      ensures !l.reset ==> Items(Written(l)) == t + Items(Stream(c) + l.wire)
    {
      assert InBooks(c, w.links, Log(w));
      AccountMeans(c, l, t);
    }
    if id in Ids(All(w.inbox)) {
      var c :| c in All(w.inbox) && c.id == id;
    }
  }

  lemma AccountMeans(c: Conn, l: Link, t: seq<Item>)
    requires Account(c, l, t)
    ensures t <= Items(Written(l))
    ensures !l.reset ==> Items(Written(l)) == t + Items(Stream(c) + l.wire)
  {
    var fs := FramesOf(t);
    MessagesOfFrames(t);
    var seen, wr := EncodeAll(fs) + Stream(c), Written(l);
    var rest := wr[|seen|..];
    hide Written, EncodeAll, Stream, Items;
    assert wr == seen + rest;
    assert seen + rest == EncodeAll(fs) + (Stream(c) + rest);
    ItemsOfEncodeAll(fs, Stream(c) + rest);
  }

  ghost predicate Distinct(ids: seq<nat>) {
    forall i, j :: 0 <= i < j < |ids| ==> ids[i] != ids[j]
  }

  /** Over every run, what the receiver has dequeued from one connection is a prefix of what was
      written on it: the frames sent OK, in order, unchanged, none twice. */
  lemma ReceivedInOrder(pending: seq<nat>, child: bool, steps: seq<Step>, id: nat)
    requires Distinct(pending)
    ensures var w := Run(Opened(pending, child), steps);
      id in w.links ==>
        && TakenFrom(w.received, id) <= Items(Written(w.links[id]))
        && (Clean(w.links[id]) ==> TakenFrom(w.received, id) <= Messages(w.links[id].sent))
  {
    InvOpened(pending, child);
    InvRun(Opened(pending, child), steps);
    var w := Run(Opened(pending, child), steps);
    if id in w.links {
      TakenIsWritten(w, id);
      TakenPrefix(w.received, w.inbox.queue, id);
      LinkOf(w, id);
      if Clean(w.links[id]) {
        WrittenMeansSent(w.links[id]);
      }
    }
  }

  /** Over every run, no frame is lost unless its sender died: the frames a clean sender had accepted
      are those taken, then those in memory or still under way; and once the connection has been
      dropped, all of them have been taken. */
  lemma NothingIsLost(pending: seq<nat>, child: bool, steps: seq<Step>, id: nat)
    requires Distinct(pending)
    ensures var w := Run(Opened(pending, child), steps);
      id in w.links && !w.links[id].reset && Clean(w.links[id]) ==>
        && (id !in Ids(All(w.inbox)) ==> TakenFrom(Log(w), id) == Messages(w.links[id].sent))
        && (forall c :: c in All(w.inbox) && c.id == id ==>
              Messages(w.links[id].sent) == TakenFrom(Log(w), id) + Items(Stream(c) + w.links[id].wire))
  {
    InvOpened(pending, child);
    InvRun(Opened(pending, child), steps);
    var w := Run(Opened(pending, child), steps);
    if id in w.links && !w.links[id].reset && Clean(w.links[id]) {
      TakenIsWritten(w, id);
      LinkOf(w, id);
      WrittenMeansSent(w.links[id]);
    }
  }

  /** A path the receiver refuses costs its sender the connection: what is received is never more than the frames
      sent before it and one corrupt frame. Unless the sender died, just those are what was taken, what is in memory
      and what is still under way; and once the connection has been dropped, all of them have been taken. */
  lemma UndeliverableEndsTheStream(pending: seq<nat>, child: bool, steps: seq<Step>, id: nat, k: nat)
    requires Distinct(pending)
    requires var w := Run(Opened(pending, child), steps);
      && id in w.links && k < |w.links[id].sent| && !Deliverable(w.links[id].sent[k])
      && forall i :: 0 <= i < k ==> Deliverable(w.links[id].sent[i])
    ensures var w := Run(Opened(pending, child), steps);
      var all := Messages(w.links[id].sent[..k]) + [Corrupt];
      && TakenFrom(w.received, id) <= all
      && (!w.links[id].reset && id !in Ids(All(w.inbox)) ==> TakenFrom(Log(w), id) == all)
      && (!w.links[id].reset ==> forall c :: c in All(w.inbox) && c.id == id ==>
            all == TakenFrom(Log(w), id) + Items(Stream(c) + w.links[id].wire))
  {
    InvOpened(pending, child);
    InvRun(Opened(pending, child), steps);
    var w := Run(Opened(pending, child), steps);
    TakenIsWritten(w, id);
    TakenPrefix(w.received, w.inbox.queue, id);
    LinkOf(w, id);
    var l := w.links[id];
    ItemsWithUndeliverable(l.sent, k, if l.cut.Some? then l.cut.value.bytes else []);
    hide Run, Inv, Items, Messages, EncodeAll;
    assert Items(Written(l)) == Messages(l.sent[..k]) + [Corrupt];
  }

  /** Over every run, at most one frame is queued and no connection's buffer exceeds 8 MiB. */
  lemma MemoryIsBounded(pending: seq<nat>, child: bool, steps: seq<Step>)
    requires Distinct(pending)
    ensures var ib := Run(Opened(pending, child), steps).inbox;
      && |ib.queue| <= 1
      && forall i :: 0 <= i < |ib.conns| ==> |ib.conns[i].buf| <= ib.conns[i].cap <= MAX_CAP
  {
    InvOpened(pending, child);
    InvRun(Opened(pending, child), steps);
  }
}
