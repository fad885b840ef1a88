/** Who speaks first in a child opened by `mailbox_open_at`. */
module Startup {
  import opened Frames
  import opened Connection
  import opened InboxService
  import opened Protocol
  import opened ProtocolRuns
  import opened RunTheorems
  import opened Wakeups

  /** A service under the startup rule: it serves only the connection at the startup index. */
  ghost predicate StartupServed(ib: Inbox, r: Inbox) {
    var cs, k := All(ib), ib.startupIndex;
    && r.startupIndex == k
    && (k >= |cs| ==> r.conns == cs && r.queue == [] && r.startupOnly)
    && (k < |cs| && r.queue == [] ==>
          r.startupOnly && exists repl: seq<Conn> :: ReplacedAt(cs, k, repl, r.conns))
    && (k < |cs| && r.queue != [] ==> !r.startupOnly && r.queue[0].from == cs[k].id)
    && r.backlog == []
  }

  ghost predicate ReplacedAt(cs: seq<Conn>, k: nat, repl: seq<Conn>, cs': seq<Conn>) {
    k < |cs| && |repl| <= 1 && (forall c :: c in repl ==> c.id == cs[k].id) && cs' == cs[..k] + repl + cs[k + 1..]
  }

  lemma ServiceAtStartup(ib: Inbox)
    requires WfInbox(ib) && ib.queue == [] && ib.startupOnly
    ensures StartupServed(ib, Service(ib))
  {
    var a, r := AcceptAll(ib), Service(ib);
    if a.startupIndex < |a.conns| {
      var k := a.startupIndex;
      var v := Visit(a, k);
      VisitShape(a, k);
      ServiceKeepsWf(a.conns[k]);
      var s := ServiceConn(a.conns[k]);
      hide ServiceConn, Visit, CapSize;
      assert ServiceLoop(v.0, v.1, 0) == v.0;
      assert r == v.0;
      assert ReplacedAt(a.conns, k, Survivor(s), v.0.conns);
    }
  }

  /** The connections accepted at the open keep their places, and none of them speaks first. */
  ghost predicate PendingWait(w: World, pending: seq<nat>) {
    var cs := All(w.inbox);
    && w.inbox.startupIndex == |pending|
    && (Log(w) == [] ==>
          w.inbox.startupOnly && |cs| >= |pending| && forall i :: 0 <= i < |pending| ==> cs[i].id == pending[i])
    && (Log(w) != [] ==> Log(w)[0].from !in pending)
  }

  lemma PendingWaitServed(w: World, pending: seq<nat>)
    requires Inv(w) && PendingWait(w, pending)
    ensures PendingWait(w.(inbox := Service(w.inbox)), pending)
  {
    var cs, r, k := All(w.inbox), Service(w.inbox), |pending|;
    var w' := w.(inbox := r);
    LogGrows(w, w.inbox, w.received);
    if Log(w) == [] {
      ServiceAtStartup(w.inbox);
      assert All(r) == r.conns;
      if k < |cs| {
        if r.queue != [] {
          assert forall i :: 0 <= i < k ==> cs[i].id != cs[k].id;
        } else {
          var repl :| ReplacedAt(cs, k, repl, r.conns);
        }
      }
    }
  }

  /** Servicing never touches what is already queued. */
  lemma LogGrows(w: World, ib: Inbox, received: seq<Queued>)
    requires WfInbox(ib)
    ensures received + ib.queue <= received + Service(ib).queue
    ensures Service(ib).startupIndex == ib.startupIndex
  {
    var a := AcceptAll(ib);
    if a.queue == [] && a.conns != [] {
      if a.startupOnly {
        NeverRestarts(a, a.startupIndex, 1);
      } else {
        NeverRestarts(a, a.nextRead % |a.conns|, |a.conns|);
      }
    }
  }

  lemma AllSameIds(w: World, id: nat, ch: Change)
    ensures SameButOne(All(w.inbox), All(Feed(w.inbox, id, ch)), id)
    ensures Feed(w.inbox, id, ch).queue == w.inbox.queue
  {
    AllAfterFeed(w.inbox, id, ch);
  }

  lemma PendingWaitFed(w: World, pending: seq<nat>, id: nat, ch: Change, links: map<nat, Link>)
    requires PendingWait(w, pending)
    ensures PendingWait(World(Feed(w.inbox, id, ch), links, w.received), pending)
  {
    AllSameIds(w, id, ch);
  }

  lemma PendingWaitConnect(w: World, pending: seq<nat>, id: nat)
    requires Inv(w) && PendingWait(w, pending) && Enabled(w, Connect(id))
    ensures PendingWait(Apply(w, Connect(id)), pending)
  {
    assert All(Apply(w, Connect(id)).inbox) == All(w.inbox) + [Conn(id, [], [], 0)];
  }

  lemma TakenLogGrows(w: World)
    requires Inv(w) && w.inbox.queue != []
    ensures var w' := Apply(w, TakeHead);
      Log(w) <= Log(w') && w'.inbox.startupIndex == w.inbox.startupIndex && w'.links == w.links
  {
    hide Service, Books, Tagged;
    var ib := w.inbox.(queue := w.inbox.queue[1..]);
    var received := w.received + [w.inbox.queue[0]];
    assert received + ib.queue == Log(w);
    LogGrows(w, ib, received);
  }

  lemma PendingWaitTaken(w: World, pending: seq<nat>)
    requires Inv(w) && PendingWait(w, pending) && w.inbox.queue != []
    ensures PendingWait(Apply(w, TakeHead), pending)
  {
    hide Inv, Apply;
    TakenLogGrows(w);
    assert Log(w) != [];
    hide Log, All;
  }

  lemma PendingWaitStep(w: World, pending: seq<nat>, s: Step)
    requires Inv(w) && WfInbox(w.inbox) && PendingWait(w, pending)
    ensures PendingWait(Apply(w, s), pending)
  {
    hide Inv, Feed, Service;
    if Enabled(w, s) {
      match s
      case Connect(id) => hide PendingWait, Apply; PendingWaitConnect(w, pending, id);
      case Send(id, f, o) =>
      case HangUp(id) =>
      case Deliver(id, n) =>
        hide PendingWait;
        var data: Chunk := w.links[id].wire[..n];
        PendingWaitFed(w, pending, id, Append(Arrived(data)), Apply(w, s).links);
      case Lull(id) => hide PendingWait; PendingWaitFed(w, pending, id, Append(WouldBlock), w.links);
      case Finish(id) => hide PendingWait; PendingWaitFed(w, pending, id, Append(Ended), Apply(w, s).links);
      case Die(id, keep) => hide PendingWait; PendingWaitFed(w, pending, id, CutShort(keep), Apply(w, s).links);
      case RunService => hide PendingWait; PendingWaitServed(w, pending);
      case TakeHead => hide PendingWait, Apply; PendingWaitTaken(w, pending);
    }
  }

  lemma {:induction false} PendingWaitRun(w: World, pending: seq<nat>, steps: seq<Step>)
    requires Inv(w) && PendingWait(w, pending)
    ensures PendingWait(Run(w, steps), pending)
    decreases |steps|
  {
    if steps != [] {
      hide Inv, Apply, PendingWait;
      InvStep(w, steps[0]);
      FeedKeepsWf(w, steps[0]);
      PendingWaitStep(w, pending, steps[0]);
      PendingWaitRun(Apply(w, steps[0]), pending, steps[1..]);
    }
  }

  /** Over every run of a child, the first frame never comes from a connection accepted at the open: not
      from its own, and not from the parent's either when that had already connected by then. */
  lemma FirstIsNeverPending(pending: seq<nat>, steps: seq<Step>)
    requires Distinct(pending)
    ensures var log := Log(Run(Opened(pending, true), steps));
      log != [] ==> log[0].from !in pending
  {
    InvOpened(pending, true);
    var w := Opened(pending, true);
    assert All(w.inbox) == w.inbox.conns;
    PendingWaitRun(w, pending, steps);
  }

  // ----- the connection after them does -----

  /** A sender that ended, or died, having sent nothing that can be taken. */
  ghost predicate Spent(l: Link) {
    l.reset || (l.ended && Items(Written(l)) == [])
  }

  /** The connections made in a run, in order; a step that asks for one already known makes none. */
  function Made(known: set<nat>, steps: seq<Step>): seq<nat>
    decreases |steps|
  {
    if steps == [] then []
    else
      var now := MadeBy(known, steps[0]);
      now + Made(known + (set id <- now), steps[1..])
  }

  function MadeBy(known: set<nat>, s: Step): seq<nat> {
    if s.Connect? && s.id !in known then [s.id] else []
  }

  /** From place `k` on, the connections are those made, but for the first `j`. */
  ghost predicate InLine(cs: seq<Conn>, k: nat, made: seq<nat>, j: nat) {
    && j <= |made| && |cs| == k + (|made| - j)
    && forall i :: k <= i < |cs| ==> cs[i].id == made[j + (i - k)]
  }

  ghost predicate SpentUpTo(links: map<nat, Link>, made: seq<nat>, j: nat) {
    j <= |made| && forall i :: 0 <= i < j ==> made[i] in links && Spent(links[made[i]])
  }

  ghost predicate Known(links: map<nat, Link>, made: seq<nat>) {
    forall id :: id in made ==> id in links
  }

  /** The first frame is from one of those made, and all before it have nothing to give. */
  ghost predicate SpokeInTurn(log: seq<Queued>, links: map<nat, Link>, made: seq<nat>) {
    log != [] && exists j :: 0 <= j < |made| && log[0].from == made[j] && SpentUpTo(links, made, j)
  }

  ghost predicate StillWaiting(w: World, k: nat, made: seq<nat>) {
    && w.inbox.startupOnly
    && exists j :: InLine(All(w.inbox), k, made, j) && SpentUpTo(w.links, made, j)
  }

  ghost predicate InTurn(w: World, k: nat, made: seq<nat>) {
    && w.inbox.startupIndex == k
    && if Log(w) == [] then StillWaiting(w, k, made) else SpokeInTurn(Log(w), w.links, made)
  }

  lemma DroppedSilentIsSpent(w: World, p: nat)
    requires Inv(w) && Log(w) == [] && p in w.links && p !in Ids(All(w.inbox))
    ensures Spent(w.links[p])
  {
    LinkOf(w, p);
    assert TakenFrom([], p) == [];
  }

  /** What the service leaves in line: all, or all but the first, which is then spent. */
  lemma LineServed(cs: seq<Conn>, k: nat, made: seq<nat>, j: nat, repl: seq<Conn>, cs': seq<Conn>)
    requires InLine(cs, k, made, j) && ReplacedAt(cs, k, repl, cs') && Unique(cs)
    ensures j < |made| && cs[k].id == made[j]
    ensures repl != [] ==> InLine(cs', k, made, j)
    ensures repl == [] ==> InLine(cs', k, made, j + 1) && made[j] !in Ids(cs')
  {
    assert k < |cs|;
    if repl == [] {
      forall c | c in cs' ensures c.id != made[j] {
        var i :| 0 <= i < |cs'| && cs'[i] == c;
        var at := if i < k then i else i + 1;
        assert c == cs[at] && (at < k ==> cs[at].id != cs[k].id) && (k < at ==> cs[k].id != cs[at].id);
      }
    } else {
      assert repl == [repl[0]] && repl[0] in repl;
    }
  }

  lemma ServedWhileWaiting(w: World) returns (w': World)
    requires Inv(w) && Log(w) == [] && w.inbox.startupOnly
    ensures WfInbox(w.inbox) && w' == w.(inbox := Service(w.inbox)) && Inv(w')
    ensures StartupServed(w.inbox, w'.inbox) && All(w'.inbox) == w'.inbox.conns && Unique(All(w.inbox))
    ensures Log(w') == w'.inbox.queue
  {
    w' := w.(inbox := Service(w.inbox));
    InvStep(w, RunService);
    ServiceAtStartup(w.inbox);
    hide Service, Unique;
    assert w.received == [];
  }

  lemma StillWaitingServed(w: World, k: nat, made: seq<nat>)
    requires Inv(w) && InTurn(w, k, made) && Log(w) == []
    requires Known(w.links, made)
    ensures InTurn(w.(inbox := Service(w.inbox)), k, made)
  {
    hide Inv, Service, All, Spent, SpentUpTo, InLine, Unique, Ids, WfInbox;
    var w' := ServedWhileWaiting(w);
    var cs, r := All(w.inbox), w'.inbox;
    var j: nat :| InLine(cs, k, made, j) && SpentUpTo(w.links, made, j);
    if k >= |cs| {
      assert InLine(r.conns, k, made, j);
    } else {
      InLineFirst(cs, k, made, j);
      if r.queue != [] {
        assert Log(w')[0].from == made[j];
      } else {
        var repl :| ReplacedAt(cs, k, repl, r.conns);
        LineMovesOn(w', cs, k, made, j, repl);
      }
    }
  }

  lemma LineMovesOn(w': World, cs: seq<Conn>, k: nat, made: seq<nat>, j: nat, repl: seq<Conn>)
    requires Inv(w') && Log(w') == [] && w'.inbox.startupOnly && Known(w'.links, made) && Unique(cs)
    requires InLine(cs, k, made, j) && SpentUpTo(w'.links, made, j) && ReplacedAt(cs, k, repl, All(w'.inbox))
    ensures StillWaiting(w', k, made)
  {
    hide Inv, All, Spent, SpentUpTo, InLine, Unique, Ids, ReplacedAt;
    LineServed(cs, k, made, j, repl, All(w'.inbox));
    if repl == [] {
      assert made[j] in made;
      DroppedSilentIsSpent(w', made[j]);
      OneMoreSpent(w'.links, made, j);
    }
  }

  lemma InLineFirst(cs: seq<Conn>, k: nat, made: seq<nat>, j: nat)
    requires InLine(cs, k, made, j) && k < |cs|
    ensures j < |made| && cs[k].id == made[j]
  {
  }

  lemma OneMoreSpent(links: map<nat, Link>, made: seq<nat>, j: nat)
    requires SpentUpTo(links, made, j) && j < |made| && made[j] in links && Spent(links[made[j]])
    ensures SpentUpTo(links, made, j + 1)
  {
    hide Spent;
  }

  lemma InTurnServed(w: World, k: nat, made: seq<nat>)
    requires Inv(w) && InTurn(w, k, made) && Known(w.links, made)
    ensures InTurn(w.(inbox := Service(w.inbox)), k, made)
  {
    if Log(w) == [] {
      StillWaitingServed(w, k, made);
    } else {
      LogGrows(w, w.inbox, w.received);
    }
  }

  /** Every sender that was spent still is. */
  ghost predicate SpentKept(links: map<nat, Link>, links': map<nat, Link>) {
    forall p :: p in links ==> p in links' && (Spent(links[p]) ==> Spent(links'[p]))
  }

  lemma SpentUpToKept(links: map<nat, Link>, links': map<nat, Link>, made: seq<nat>, j: nat)
    requires SpentUpTo(links, made, j) && SpentKept(links, links')
    ensures SpentUpTo(links', made, j)
  {
    hide Spent;
  }

  lemma InLineFed(cs: seq<Conn>, cs': seq<Conn>, id: nat, k: nat, made: seq<nat>, j: nat)
    requires InLine(cs, k, made, j) && SameButOne(cs, cs', id)
    ensures InLine(cs', k, made, j)
  {
  }

  lemma InTurnFed(w: World, k: nat, made: seq<nat>, id: nat, ch: Change, links: map<nat, Link>)
    requires InTurn(w, k, made) && SpentKept(w.links, links)
    ensures InTurn(World(Feed(w.inbox, id, ch), links, w.received), k, made)
  {
    var w' := World(Feed(w.inbox, id, ch), links, w.received);
    AllSameIds(w, id, ch);
    assert Log(w') == Log(w);
    hide SpentKept, SpentUpTo, InLine, All, SameButOne;
    if Log(w) == [] {
      var j :| InLine(All(w.inbox), k, made, j) && SpentUpTo(w.links, made, j);
      InLineFed(All(w.inbox), All(w'.inbox), id, k, made, j);
      SpentUpToKept(w.links, links, made, j);
    } else {
      var j :| 0 <= j < |made| && Log(w)[0].from == made[j] && SpentUpTo(w.links, made, j);
      SpentUpToKept(w.links, links, made, j);
    }
  }

  lemma InTurnSent(w: World, k: nat, made: seq<nat>, links: map<nat, Link>)
    requires InTurn(w, k, made) && SpentKept(w.links, links)
    ensures InTurn(w.(links := links), k, made)
  {
    hide SpentKept, SpentUpTo, InLine;
    if Log(w) == [] {
      var j :| InLine(All(w.inbox), k, made, j) && SpentUpTo(w.links, made, j);
      SpentUpToKept(w.links, links, made, j);
    } else {
      var j :| 0 <= j < |made| && Log(w)[0].from == made[j] && SpentUpTo(w.links, made, j);
      SpentUpToKept(w.links, links, made, j);
    }
  }

  lemma SpentStays(w: World, s: Step, p: nat)
    requires Inv(w) && p in w.links
    ensures p in Apply(w, s).links && (Spent(w.links[p]) ==> Spent(Apply(w, s).links[p]))
  {
    LinkOf(w, p);
    hide Inv, Feed, Service, Items, EncodeAll;
  }

  lemma AllAfterConnect(w: World, id: nat)
    requires Inv(w) && Enabled(w, Connect(id))
    ensures All(Apply(w, Connect(id)).inbox) == All(w.inbox) + [Conn(id, [], [], 0)]
  {
  }

  lemma InLineWithOneMore(cs: seq<Conn>, c: Conn, k: nat, made: seq<nat>, j: nat)
    requires InLine(cs, k, made, j)
    ensures InLine(cs + [c], k, made + [c.id], j)
  {
  }

  lemma SpentUpToWithOneMore(links: map<nat, Link>, links': map<nat, Link>, made: seq<nat>, id: nat, j: nat)
    requires SpentUpTo(links, made, j) && SpentKept(links, links')
    ensures SpentUpTo(links', made + [id], j)
  {
    hide Spent;
    assert forall i :: 0 <= i < j ==> (made + [id])[i] == made[i];
  }

  lemma InTurnConnect(w: World, k: nat, made: seq<nat>, id: nat)
    requires Inv(w) && InTurn(w, k, made) && Enabled(w, Connect(id))
    requires SpentKept(w.links, Apply(w, Connect(id)).links)
    ensures InTurn(Apply(w, Connect(id)), k, made + [id])
  {
    var w' := Apply(w, Connect(id));
    var c := Conn(id, [], [], 0);
    AllAfterConnect(w, id);
    assert Log(w') == Log(w) && w'.inbox.startupOnly == w.inbox.startupOnly;
    hide Inv, All, SpentKept, SpentUpTo, InLine, Apply;
    if Log(w) == [] {
      var j :| InLine(All(w.inbox), k, made, j) && SpentUpTo(w.links, made, j);
      InLineWithOneMore(All(w.inbox), c, k, made, j);
      SpentUpToWithOneMore(w.links, w'.links, made, id, j);
    } else {
      var j :| 0 <= j < |made| && Log(w)[0].from == made[j] && SpentUpTo(w.links, made, j);
      SpentUpToWithOneMore(w.links, w'.links, made, id, j);
      assert (made + [id])[j] == made[j];
    }
  }

  lemma InTurnTaken(w: World, k: nat, made: seq<nat>)
    requires Inv(w) && InTurn(w, k, made) && w.inbox.queue != []
    ensures InTurn(Apply(w, TakeHead), k, made)
  {
    hide Inv, Apply, SpentUpTo, StillWaiting;
    TakenLogGrows(w);
    assert Log(w) != [];
    hide Log, All;
  }

  lemma InTurnStep(w: World, k: nat, made: seq<nat>, s: Step)
    requires Inv(w) && WfInbox(w.inbox) && InTurn(w, k, made) && Known(w.links, made)
    ensures InTurn(Apply(w, s), k, made + MadeBy(w.links.Keys, s))
  {
    hide Inv, Feed, Service, Spent, WfInbox, All;
    assert SpentKept(w.links, Apply(w, s).links) by {
      forall p | p in w.links
        ensures p in Apply(w, s).links && (Spent(w.links[p]) ==> Spent(Apply(w, s).links[p]))
      {
        SpentStays(w, s, p);
      }
    }
    hide InTurn, SpentKept;
    if !s.Connect? || !Enabled(w, s) {
      assert made + MadeBy(w.links.Keys, s) == made;
    }
    if Enabled(w, s) {
      var links := Apply(w, s).links;
      match s
      case Connect(id) => hide Apply; InTurnConnect(w, k, made, id);
      case Send(id, f, o) => InTurnSent(w, k, made, links);
      case HangUp(id) => InTurnSent(w, k, made, links);
      case Deliver(id, n) =>
        var data: Chunk := w.links[id].wire[..n];
        InTurnFed(w, k, made, id, Append(Arrived(data)), links);
      case Lull(id) => InTurnFed(w, k, made, id, Append(WouldBlock), links);
      case Finish(id) => InTurnFed(w, k, made, id, Append(Ended), links);
      case Die(id, keep) => InTurnFed(w, k, made, id, CutShort(keep), links);
      case RunService => InTurnServed(w, k, made);
      case TakeHead => hide Apply; InTurnTaken(w, k, made);
    }
  }

  lemma LinksAfter(w: World, s: Step)
    requires WfInbox(w.inbox)
    ensures Apply(w, s).links.Keys == w.links.Keys + set id <- MadeBy(w.links.Keys, s)
  {
    hide Feed, Service, WfInbox;
  }

  lemma KnownMore(links: map<nat, Link>, links': map<nat, Link>, made: seq<nat>, now: seq<nat>)
    requires Known(links, made) && links'.Keys == links.Keys + set id <- now
    ensures Known(links', made + now)
  {
    assert forall id :: id in made ==> id in links.Keys;
    assert forall id :: id in now ==> id in links'.Keys;
  }

  lemma RunOnce(w: World, steps: seq<Step>)
    requires WfInbox(w.inbox) && steps != []
    ensures WfInbox(Apply(w, steps[0]).inbox) && Run(w, steps) == Run(Apply(w, steps[0]), steps[1..])
  {
    FeedKeepsWf(w, steps[0]);
  }

  lemma MadeOnce(known: set<nat>, steps: seq<Step>)
    requires steps != []
    ensures var now := MadeBy(known, steps[0]);
      Made(known, steps) == now + Made(known + (set id <- now), steps[1..])
  {
  }

  lemma {:induction false} InTurnRun(w: World, k: nat, made: seq<nat>, steps: seq<Step>)
    requires Inv(w) && InTurn(w, k, made) && Known(w.links, made)
    ensures Inv(Run(w, steps)) && InTurn(Run(w, steps), k, made + Made(w.links.Keys, steps))
    ensures Known(Run(w, steps).links, made + Made(w.links.Keys, steps))
    decreases |steps|
  {
    if steps == [] {
      assert made + Made(w.links.Keys, steps) == made;
    } else {
      hide Inv, Apply, InTurn, MadeBy, Made, Run, Known;
      RunOnce(w, steps);
      MadeOnce(w.links.Keys, steps);
      var now := MadeBy(w.links.Keys, steps[0]);
      InvStep(w, steps[0]);
      FeedKeepsWf(w, steps[0]);
      InTurnStep(w, k, made, steps[0]);
      LinksAfter(w, steps[0]);
      var w' := Apply(w, steps[0]);
      KnownMore(w.links, w'.links, made, now);
      InTurnRun(w', k, made + now, steps[1..]);
      assert made + now + Made(w'.links.Keys, steps[1..]) == made + Made(w.links.Keys, steps);
    }
  }

  lemma InTurnOpened(pending: seq<nat>)
    ensures InTurn(Opened(pending, true), |pending|, [])
  {
    var w := Opened(pending, true);
    assert All(w.inbox) == w.inbox.conns;
    assert InLine(All(w.inbox), |pending|, [], 0) && SpentUpTo(w.links, [], 0);
  }

  /** Over every run of a child, the first frame of all is from a connection made after the open, and each made
      before that one died, or ended having sent nothing that can be taken. */
  lemma FirstFrameIsInTurn(pending: seq<nat>, steps: seq<Step>)
    requires Distinct(pending)
    ensures var w := Run(Opened(pending, true), steps);
      Log(w) != [] ==> SpokeInTurn(Log(w), w.links, Made(Opened(pending, true).links.Keys, steps))
  {
    InvOpened(pending, true);
    InTurnOpened(pending);
    var made := Made(Opened(pending, true).links.Keys, steps);
    InTurnRun(Opened(pending, true), |pending|, [], steps);
    assert [] + made == made;
    hide Run, Made, SpokeInTurn;
  }

  /** So the first connection made after the open, whenever that was, speaks first: if it sent anything and
      did not die, the first frame of all is its own. With only the child's own connection accepted at the
      open, that connection is the parent's. */
  lemma FirstConnectionSpeaksFirst(pending: seq<nat>, steps: seq<Step>)
    requires Distinct(pending) && Made(Opened(pending, true).links.Keys, steps) != []
    ensures var w, p := Run(Opened(pending, true), steps), Made(Opened(pending, true).links.Keys, steps)[0];
      p in w.links &&
      (Log(w) != [] && Clean(w.links[p]) && w.links[p].sent != [] && !w.links[p].reset ==>
         Log(w)[0].from == p)
  {
    var w0, made := Opened(pending, true), Made(Opened(pending, true).links.Keys, steps);
    InvOpened(pending, true);
    InTurnOpened(pending);
    InTurnRun(w0, |pending|, [], steps);
    assert [] + made == made;
    var w, p := Run(w0, steps), made[0];
    assert p in made;
    hide Run, Made;
    LinkOf(w, p);
    if Log(w) != [] && Clean(w.links[p]) {
      WrittenMeansSent(w.links[p]);
      var j :| 0 <= j < |made| && Log(w)[0].from == made[j] && SpentUpTo(w.links, made, j);
    }
  }
}
