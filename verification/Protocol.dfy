/** Whole runs of the mailbox protocol: senders, the bytes under way, and one receiving inbox. */
module Protocol {
  import opened Wrappers
  import opened Bytes
  import opened Frames
  import opened Connection
  import opened InboxService

  /** A frame whose send answered ERROR, and the part of it that had been written. */
  datatype Partial = Partial(frame: Frame, bytes: bytes)

  /** The sender's end of one connection. `sent` lists the frames whose send answered OK; `wire` is
      what has been written and has not reached the receiver. */
  datatype Link = Link(sent: seq<Frame>, cut: Option<Partial>, wire: bytes,
                       hungUp: bool, ended: bool, reset: bool)

  datatype World = World(inbox: Inbox, links: map<nat, Link>, received: seq<Queued>)

  /** What `send_frame_bytes` may answer, with the bytes it wrote. */
  datatype SendOutcome = SentOk | SentFull | SentError(wrote: nat)

  datatype Step =
    | Connect(id: nat)                                  // `connect` in peer_get
    | Send(id: nat, frame: Frame, outcome: SendOutcome) // `channel_send_fds` past its size check
    | HangUp(id: nat)                                   // the last handle closed: shutdown(SD_SEND)
    | Deliver(id: nat, n: nat)                          // the next n bytes reach the receiver's socket
    | Lull(id: nat)                                     // a read will find nothing for the moment
    | Finish(id: nat)                                      // the orderly end reaches the receiver's socket
    | Die(id: nat, keep: nat)                           // the sender dies: what was unread may be lost
    | RunService                                        // `inbox_service` outside a receive
    | TakeHead                                          // the end of `channel_recv_fds`

  function Written(l: Link): bytes {
    EncodeAll(l.sent) + (if l.cut.Some? then l.cut.value.bytes else [])
  }

  /** Every connection the receiver knows of, accepted or not. */
  function All(ib: Inbox): seq<Conn> {
    AcceptAll(ib).conns
  }

  function Ids(cs: seq<Conn>): set<nat> {
    set c | c in cs :: c.id
  }

  datatype Change = Append(event: RecvEvent) | CutShort(keep: nat)

  function Changed(input: seq<RecvEvent>, ch: Change): seq<RecvEvent> {
    match ch
    case Append(e) => input + [e]
    case CutShort(keep) => input[..if keep <= |input| then keep else |input|] + [Reset]
  }

  /** A change of what the reads of connection `id` will answer. */
  function Feed(ib: Inbox, id: nat, ch: Change): Inbox {
    ib.(backlog := seq(|ib.backlog|, i requires 0 <= i < |ib.backlog| =>
          if ib.backlog[i].id == id then ib.backlog[i].(input := Changed(ib.backlog[i].input, ch))
          else ib.backlog[i]),
        conns := FeedConns(ib.conns, id, ch))
  }

  function FeedConns(cs: seq<Conn>, id: nat, ch: Change): seq<Conn> {
    seq(|cs|, i requires 0 <= i < |cs| =>
      if cs[i].id == id then cs[i].(input := Changed(cs[i].input, ch)) else cs[i])
  }

  predicate Enabled(w: World, s: Step) {
    match s
    case Connect(id) => id !in w.links
    case Send(id, f, o) =>
      && id in w.links && !w.links[id].hungUp && Sendable(f)
      && (o.SentError? ==> o.wrote < |Encode(f)|)
    case HangUp(id) => id in w.links
    case Deliver(id, n) =>
      id in w.links && id in Ids(All(w.inbox)) && !w.links[id].reset && 1 <= n <= |w.links[id].wire|
    case Lull(id) => id in w.links
    case Finish(id) =>
      && id in w.links && id in Ids(All(w.inbox))
      && w.links[id].hungUp && !w.links[id].reset && !w.links[id].ended && w.links[id].wire == []
    case Die(id, _) => id in w.links
    case RunService => true
    case TakeHead => w.inbox.queue != []
  }

  /** One step. A step that cannot happen changes nothing. After an error the socket reports a hang-up,
      so a sender whose frame was cut off sends no more. */
  function Apply(w: World, s: Step): World
    requires WfInbox(w.inbox)
  {
    if !Enabled(w, s) then w
    else
      match s
      case Connect(id) =>
        World(w.inbox.(backlog := w.inbox.backlog + [Waiting(id, [])]),
              w.links[id := Link([], None, [], false, false, false)], w.received)
      case Send(id, f, o) => w.(links := w.links[id := AfterSend(w.links[id], f, o)])
      case HangUp(id) => w.(links := w.links[id := w.links[id].(hungUp := true)])
      case Deliver(id, n) =>
        var data: Chunk := w.links[id].wire[..n];
        w.(inbox := Feed(w.inbox, id, Append(Arrived(data))),
           links := w.links[id := w.links[id].(wire := w.links[id].wire[n..])])
      case Lull(id) => w.(inbox := Feed(w.inbox, id, Append(WouldBlock)))
      case Finish(id) =>
        w.(inbox := Feed(w.inbox, id, Append(Ended)),
           links := w.links[id := w.links[id].(ended := true)])
      case Die(id, keep) =>
        w.(inbox := Feed(w.inbox, id, CutShort(keep)),
           links := w.links[id := w.links[id].(wire := [], hungUp := true, reset := true)])
      case RunService => w.(inbox := Service(w.inbox))
      case TakeHead => w.(inbox := Dequeue(w.inbox), received := w.received + [w.inbox.queue[0]])
  }

  function AfterSend(l: Link, f: Frame, o: SendOutcome): Link
    requires o.SentError? ==> o.wrote < |Encode(f)|
  {
    match o
    case SentOk => l.(sent := l.sent + [f], wire := l.wire + Encode(f))
    case SentFull => l
    case SentError(k) =>
      l.(cut := Some(Partial(f, Encode(f)[..k])), wire := l.wire + Encode(f)[..k], hungUp := true)
  }

  function Run(w: World, steps: seq<Step>): (r: World)
    requires WfInbox(w.inbox)
    ensures WfInbox(r.inbox)
    decreases |steps|
  {
    if steps == [] then w
    else
      FeedKeepsWf(w, steps[0]);
      Run(Apply(w, steps[0]), steps[1..])
  }

  lemma FeedKeepsWf(w: World, s: Step)
    requires WfInbox(w.inbox)
    ensures WfInbox(Apply(w, s).inbox)
  {
  }

  /** An inbox that has just opened: `mailbox_open_at` has accepted the connections in `pending`, its
      own first; the root's `mailbox_open` then clears the startup rule. */
  function Opened(pending: seq<nat>, child: bool): World {
    World(
      Inbox([], seq(|pending|, i requires 0 <= i < |pending| => Conn(pending[i], [], [], 0)),
            0, child, |pending|, []),
      map id | id in pending :: Link([], None, [], false, false, false),
      [])
  }

  // ----- the books -----

  /** Everything queued so far, in order: what was received, then what still waits. */
  function Log(w: World): seq<Queued> {
    w.received + w.inbox.queue
  }

  /** What has been taken from connection `id`. */
  function TakenFrom(log: seq<Queued>, id: nat): seq<Item> {
    if log == [] then []
    else
      var q := log[|log| - 1];
      TakenFrom(log[..|log| - 1], id) + (if q.from == id then [q.item] else [])
  }

  lemma TakenOneMore(log: seq<Queued>, q: Queued, id: nat)
    ensures TakenFrom(log + [q], id) == TakenFrom(log, id) + (if q.from == id then [q.item] else [])
  {
    assert (log + [q])[..|log|] == log;
  }

  lemma {:induction false} TakenPrefix(log: seq<Queued>, more: seq<Queued>, id: nat)
    ensures TakenFrom(log, id) <= TakenFrom(log + more, id)
    decreases |more|
  {
    if more == [] {
      assert log + more == log;
    } else {
      var k := |more| - 1;
      assert log + more == (log + more[..k]) + [more[k]];
      TakenOneMore(log + more[..k], more[k], id);
      TakenPrefix(log, more[..k], id);
    }
  }

  predicate AllMessages(t: seq<Item>) {
    forall i :: 0 <= i < |t| ==> t[i].Message? && Deliverable(t[i].frame)
  }

  function FramesOf(t: seq<Item>): seq<Frame>
    requires AllMessages(t)
  {
    seq(|t|, i requires 0 <= i < |t| => t[i].frame)
  }

  lemma MessagesOfFrames(t: seq<Item>)
    requires AllMessages(t)
    ensures Messages(FramesOf(t)) == t
  {
  }

  /** A live connection's account: what was taken, what is in memory, what has arrived and what is
      still under way make up exactly what was written, in that order. */
  ghost predicate Account(c: Conn, l: Link, t: seq<Item>) {
    && AllMessages(t)
    && var seen := EncodeAll(FramesOf(t)) + Stream(c);
       if l.reset then seen <= Written(l)
       else seen + l.wire == Written(l) && (HasEnd(c.input) ==> l.ended)
  }

  /** A dropped connection's account: nothing was taken that was not written, and unless its sender died
      everything that was written has been taken. */
  ghost predicate Settled(l: Link, t: seq<Item>) {
    && t <= Items(Written(l))
    && (!l.reset ==> t == Items(Written(l)) && (l.ended || WentBad(t)))
  }

  ghost predicate WfLink(l: Link) {
    && (l.cut.Some? ==> l.hungUp && Sendable(l.cut.value.frame) && l.cut.value.bytes < Encode(l.cut.value.frame))
    && (l.ended ==> l.hungUp && l.wire == [])
    && (l.reset ==> l.hungUp)
    && forall i :: 0 <= i < |l.sent| ==> Sendable(l.sent[i])
  }

  ghost predicate Unique(cs: seq<Conn>) {
    forall i, j :: 0 <= i < j < |cs| ==> cs[i].id != cs[j].id
  }

  ghost predicate InBooks(c: Conn, links: map<nat, Link>, log: seq<Queued>) {
    c.id in links && WfConn(c) && Account(c, links[c.id], TakenFrom(log, c.id))
  }

  ghost predicate Books(cs: seq<Conn>, links: map<nat, Link>, log: seq<Queued>) {
    && Unique(cs)
    && (forall id :: id in links ==> WfLink(links[id]))
    && (forall c :: c in cs ==> InBooks(c, links, log))
    && (forall id :: id in links && id !in Ids(cs) ==> Settled(links[id], TakenFrom(log, id)))
  }

  /** Serving one connection keeps its account, or settles it. */
  lemma AccountAfterServe(c: Conn, l: Link, t: seq<Item>)
    requires WfConn(c) && WfLink(l) && Account(c, l, t)
    ensures var s := ServiceConn(c);
      var t' := t + (if s.got.Some? then [s.got.value] else []);
      if s.gone then Settled(l, t') else Account(s.conn, l, t')
  {
    var s := ServiceConn(c);
    ServiceConserves(c);
    ServiceLeaves(c);
    hide ServiceConn, TakeFrame, Encode, Written, Items, EncodeAll, Flight;
    MessagesOfFrames(t);
    assert t + [] == t;
    match s.got
    case None =>
      if s.gone {
        WaitingMeansNothing(s.conn.buf);
        StopsHere(FramesOf(t), Stream(c), l);
      }
    case Some(Corrupt) => GoesBadHere(FramesOf(t), Stream(c), l);
    case Some(Message(f)) => FramesOfOneMore(t, f, Stream(s.conn));
  }

  lemma WaitingMeansNothing(s: bytes)
    requires TakeFrame(s) == NeedMore
    ensures Items(s) == []
  {
  }

  lemma FramesOfOneMore(t: seq<Item>, f: Frame, rest: bytes)
    requires AllMessages(t) && Deliverable(f)
    ensures AllMessages(t + [Message(f)])
    ensures EncodeAll(FramesOf(t + [Message(f)])) + rest == EncodeAll(FramesOf(t)) + (Encode(f) + rest)
  {
    hide Encode;
    assert FramesOf(t + [Message(f)]) == FramesOf(t) + [f];
    EncodeAllConcat(FramesOf(t), [f]);
    assert EncodeAll([f]) == Encode(f);
  }

  lemma StopsHere(fs: seq<Frame>, rest: bytes, l: Link)
    requires forall i :: 0 <= i < |fs| ==> Deliverable(fs[i])
    requires Items(rest) == []
    requires EncodeAll(fs) + rest <= Written(l)
    requires !l.reset ==> l.ended && EncodeAll(fs) + rest == Written(l)
    ensures Settled(l, Messages(fs))
  {
    ItemsOfEncodeAll(fs, rest);
    var w := Written(l);
    assert w == EncodeAll(fs) + rest + w[|EncodeAll(fs) + rest|..];
    ItemsGrow(EncodeAll(fs) + rest, w[|EncodeAll(fs) + rest|..]);
  }

  lemma GoesBadHere(fs: seq<Frame>, rest: bytes, l: Link)
    requires forall i :: 0 <= i < |fs| ==> Deliverable(fs[i])
    requires Items(rest) == [Corrupt]
    requires EncodeAll(fs) + rest <= Written(l)
    ensures Settled(l, Messages(fs) + [Corrupt])
  {
    ItemsOfEncodeAll(fs, rest);
    var w := Written(l);
    assert w == EncodeAll(fs) + rest + w[|EncodeAll(fs) + rest|..];
    CorruptIsLast(EncodeAll(fs) + rest, w[|EncodeAll(fs) + rest|..]);
  }
}
