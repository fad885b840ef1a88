/** The inbox of src/actor.c (Windows half) as a state: connections served round-robin, at most one
    queued frame, and the startup rule. Every function here mirrors one C function. */
module InboxService {
  import opened Wrappers
  import opened Frames
  import opened Connection

  /** A queued frame. The source does not record which connection it came from; the model does, so
      that theorems can speak of one sender. */
  datatype Queued = Queued(from: nat, item: Item)

  /** A connection the listener holds and nobody has accepted yet. */
  datatype Waiting = Waiting(id: nat, input: seq<RecvEvent>)

  datatype Inbox = Inbox(
    backlog: seq<Waiting>,
    conns: seq<Conn>,
    nextRead: nat,
    startupOnly: bool,
    startupIndex: nat,
    queue: seq<Queued>)

  ghost predicate WfInbox(ib: Inbox) {
    && (forall i :: 0 <= i < |ib.conns| ==> WfConn(ib.conns[i]))
    && ib.nextRead <= |ib.conns|
  }

  /** `conn_drop`. */
  function DropConn(ib: Inbox, i: nat): Inbox
    requires i < |ib.conns|
  {
    ib.(conns := ib.conns[..i] + ib.conns[i + 1..],
        nextRead := if ib.nextRead > i then ib.nextRead - 1 else ib.nextRead)
  }

  /** `inbox_accept_all`. */
  function AcceptAll(ib: Inbox): Inbox {
    ib.(backlog := [],
        conns := ib.conns + seq(|ib.backlog|, i requires 0 <= i < |ib.backlog| =>
          Conn(ib.backlog[i].id, ib.backlog[i].input, [], 0)))
  }

  /** One round of the loop in `inbox_service`; the second result is the loop's next `i`. */
  function Visit(ib: Inbox, i: nat): (r: (Inbox, nat))
    requires WfInbox(ib) && i < |ib.conns|
    ensures |r.0.conns| == |ib.conns| || (|r.0.conns| == |ib.conns| - 1 && r.1 == i)
    ensures r.1 <= |r.0.conns|
    ensures WfInbox(r.0)
  {
    ServiceKeepsWf(ib.conns[i]);
    var s := ServiceConn(ib.conns[i]);
    var served := ib.(conns := ib.conns[i := s.conn],
                      queue := ib.queue + (if s.got.Some? then [Queued(s.conn.id, s.got.value)] else []));
    var next := if s.gone then i else i + 1;
    var after := if s.gone then DropConn(served, i) else served;
    (if s.got.Some? then after.(startupOnly := false, nextRead := next) else after, next)
  }

  /** The loop of `inbox_service`. */
  function ServiceLoop(ib: Inbox, i: nat, tries: nat): (r: Inbox)
    requires WfInbox(ib)
    ensures WfInbox(r)
    decreases tries
  {
    if tries == 0 || ib.queue != [] || ib.conns == [] then ib
    else
      var v := Visit(ib, if i >= |ib.conns| then 0 else i);
      ServiceLoop(v.0, v.1, tries - 1)
  }

  /** `inbox_service` after the connections have been accepted. */
  function ServiceAccepted(ib: Inbox): (r: Inbox)
    requires WfInbox(ib)
    ensures WfInbox(r)
  {
    if ib.queue != [] || ib.conns == [] then ib
    else if ib.startupOnly && |ib.conns| <= ib.startupIndex then ib
    else if ib.startupOnly then ServiceLoop(ib, ib.startupIndex, 1)
    else ServiceLoop(ib, ib.nextRead % |ib.conns|, |ib.conns|)
  }

  /** `inbox_service`. */
  function Service(ib: Inbox): (r: Inbox)
    requires WfInbox(ib)
    ensures WfInbox(r)
  {
    ServiceAccepted(AcceptAll(ib))
  }

  /** The end of `channel_recv_fds`: take the head of the queue, then service again (line 733). */
  function Dequeue(ib: Inbox): (r: Inbox)
    requires WfInbox(ib) && ib.queue != []
    ensures WfInbox(r)
  {
    Service(ib.(queue := ib.queue[1..]))
  }

  // ----- the loop over shifting indices is a walk along a ring -----

  /** A list read from `at` round to `at`. */
  function Rot<T>(cs: seq<T>, at: nat): (r: seq<T>)
    requires at <= |cs|
    ensures |r| == |cs|
  {
    cs[at..] + cs[..at]
  }

  /** The connections in the order the next service will visit them. */
  function Ring(ib: Inbox): seq<Conn>
    requires ib.nextRead <= |ib.conns|
  {
    Rot(ib.conns, ib.nextRead)
  }

  function Survivor(s: Served): seq<Conn> {
    if s.gone then [] else [s.conn]
  }

  /** Walk along `todo` until something is queued: the connections passed over and still alive, the
      one that answered, and those not reached. */
  datatype Walk = Walk(passed: seq<Conn>, hit: Option<Served>, left: seq<Conn>)

  function WalkRing(todo: seq<Conn>): (w: Walk)
    requires forall i :: 0 <= i < |todo| ==> WfConn(todo[i])
    ensures w.hit.Some? ==> w.hit.value.got.Some?
  {
    if todo == [] then Walk([], None, [])
    else
      assert WfConn(todo[0]);
      var s := ServiceConn(todo[0]);
      if s.got.Some? then Walk([], Some(s), todo[1..])
      else
        var w := WalkRing(todo[1..]);
        w.(passed := Survivor(s) + w.passed)
  }

  /** The index of a list of `n` reached from `at` after `done` steps round. */
  function Round(n: nat, at: nat, done: nat): (j: nat)
    requires at <= n && done < n
    ensures j < n
  {
    var at0 := if at == n then 0 else at;
    if at0 + done >= n then at0 + done - n else at0 + done
  }

  lemma RotIndex<T>(cs: seq<T>, at: nat, done: nat)
    requires at <= |cs| && done < |cs|
    ensures Rot(cs, at)[done] == cs[Round(|cs|, at, done)]
  {
  }

  /** Putting `repl` where item `j` was, and reading on from just after it. */
  lemma RotAfter<T>(cs: seq<T>, at: nat, done: nat, repl: seq<T>)
    requires at <= |cs| && done < |cs|
    ensures var j := Round(|cs|, at, done);
      var ring := Rot(cs, at);
      && ring[done] == cs[j]
      && Rot(cs[..j] + repl + cs[j + 1..], j + |repl|) == ring[done + 1..] + ring[..done] + repl
  {
    var j, ring := Round(|cs|, at, done), Rot(cs, at);
    var at0 := if at == |cs| then 0 else at;
    var cs' := cs[..j] + repl + cs[j + 1..];
    assert cs'[j + |repl|..] == cs[j + 1..] && cs'[..j + |repl|] == cs[..j] + repl;
    assert ring == Rot(cs, at0);
    if at0 + done >= |cs| {
      assert ring[done + 1..] == cs[j + 1..at0];
      assert ring[..done] == cs[at0..] + cs[..j];
    } else {
      assert ring[done + 1..] == cs[j + 1..] + cs[..at0];
      assert ring[..done] == cs[at0..j];
    }
    assert ring[done + 1..] + ring[..done] == cs[j + 1..] + cs[..j];
  }

  /** The same, still reading from the same place. */
  lemma RotAround<T>(cs: seq<T>, at: nat, done: nat, repl: seq<T>)
    requires at <= |cs| && done < |cs|
    ensures var j := Round(|cs|, at, done);
      var at' := if at > j then at + |repl| - 1 else at;
      Rot(cs[..j] + repl + cs[j + 1..], at') == Rot(cs, at)[..done] + repl + Rot(cs, at)[done + 1..]
  {
    var j, ring := Round(|cs|, at, done), Rot(cs, at);
    var cs' := cs[..j] + repl + cs[j + 1..];
    var at' := if at > j then at + |repl| - 1 else at;
    if at == |cs| {
      assert ring == cs;
      assert Rot(cs', at') == cs';
    } else if at + done >= |cs| {
      assert ring[..done] == cs[at..] + cs[..j];
      assert ring[done + 1..] == cs[j + 1..at];
      assert cs'[at'..] == cs[at..];
      assert cs'[..at'] == cs[..j] + repl + cs[j + 1..at];
    } else {
      assert ring[..done] == cs[at..j];
      assert ring[done + 1..] == cs[j + 1..] + cs[..at];
      assert cs'[at'..] == cs[at..j] + repl + cs[j + 1..];
      assert cs'[..at'] == cs[..at];
    }
  }

  /** What one visit does to the list of connections and to the queue. */
  lemma VisitShape(ib: Inbox, j: nat)
    requires WfInbox(ib) && j < |ib.conns|
    ensures var s, v := ServiceConn(ib.conns[j]), Visit(ib, j);
      var repl := Survivor(s);
      && v.0.conns == ib.conns[..j] + repl + ib.conns[j + 1..]
      && v.1 == j + |repl|
      && v.0.queue == ib.queue + (if s.got.Some? then [Queued(ib.conns[j].id, s.got.value)] else [])
      && v.0.nextRead == (if s.got.Some? then j + |repl|
                          else if ib.nextRead > j then ib.nextRead + |repl| - 1 else ib.nextRead)
      && v.0.startupOnly == (ib.startupOnly && s.got.None?)
      && v.0.backlog == ib.backlog && v.0.startupIndex == ib.startupIndex
  {
    ServiceKeepsWf(ib.conns[j]);
    var cs, s := ib.conns, ServiceConn(ib.conns[j]);
    var cs' := cs[j := s.conn];
    assert cs'[..j] == cs[..j] && cs'[j + 1..] == cs[j + 1..];
    assert cs' == cs[..j] + [s.conn] + cs[j + 1..];
    assert cs[..j] + [] + cs[j + 1..] == cs[..j] + cs[j + 1..];
  }

  /** The loop's index stands where `done` connections of the ring have been visited. */
  predicate At(ib: Inbox, i: nat, done: nat) {
    && done <= |ib.conns| && ib.nextRead <= |ib.conns|
    && (done < |ib.conns| ==>
          (if i >= |ib.conns| then 0 else i) == Round(|ib.conns|, ib.nextRead, done))
  }

  /** A visit that queues nothing moves the connection, if it lives, from the front of the part still
      to visit to the end of the part visited. */
  lemma VisitPasses(ib: Inbox, i: nat, done: nat)
    requires WfInbox(ib) && At(ib, i, done) && done < |ib.conns|
    requires ServiceConn(Ring(ib)[done]).got.None?
    ensures var v := Visit(ib, if i >= |ib.conns| then 0 else i);
      var ring, repl := Ring(ib), Survivor(ServiceConn(Ring(ib)[done]));
      && v.0.queue == ib.queue
      && Ring(v.0) == ring[..done] + repl + ring[done + 1..]
      && |v.0.conns| == |ib.conns| - 1 + |repl| && At(v.0, v.1, done + |repl|)
  {
    hide ServiceConn, Visit, CapSize, Rot;
    var j := if i >= |ib.conns| then 0 else i;
    RotIndex(ib.conns, ib.nextRead, done);
    var repl := Survivor(ServiceConn(ib.conns[j]));
    RotAround(ib.conns, ib.nextRead, done, repl);
    VisitShape(ib, j);
  }

  /** A visit that queues something leaves the ring to start just after the connection that answered. */
  lemma VisitHits(ib: Inbox, i: nat, done: nat)
    requires WfInbox(ib) && At(ib, i, done) && done < |ib.conns|
    requires ServiceConn(Ring(ib)[done]).got.Some?
    ensures var v := Visit(ib, if i >= |ib.conns| then 0 else i);
      var ring, s := Ring(ib), ServiceConn(Ring(ib)[done]);
      && v.0.queue == ib.queue + [Queued(ring[done].id, s.got.value)]
      && Ring(v.0) == ring[done + 1..] + ring[..done] + Survivor(s)
  {
    hide ServiceConn, Visit, CapSize;
    var j := if i >= |ib.conns| then 0 else i;
    RotAfter(ib.conns, ib.nextRead, done, Survivor(ServiceConn(ib.conns[j])));
    VisitShape(ib, j);
  }

  lemma RingIsWf(ib: Inbox)
    requires WfInbox(ib)
    ensures forall k :: 0 <= k < |Ring(ib)| ==> WfConn(Ring(ib)[k])
  {
  }

  /** What a service has done, told along the ring. */
  ghost predicate Walked(ring: seq<Conn>, done: nat, r: Inbox)
    requires done <= |ring|
    requires forall k :: 0 <= k < |ring| ==> WfConn(ring[k])
  {
    var w := WalkRing(ring[done..]);
    && r.nextRead <= |r.conns|
    && if w.hit.None? then Ring(r) == ring[..done] + w.passed && r.queue == []
       else && Ring(r) == w.left + (ring[..done] + w.passed) + Survivor(w.hit.value)
            && r.queue == [Queued(w.hit.value.conn.id, w.hit.value.got.value)]
  }

  /** The service loop, with its shifting indices and dropped connections, is exactly a walk along the
      ring: it visits each connection at most once, and each exactly once when it queues nothing. */
  lemma {:induction false} LoopIsWalk(ib: Inbox, i: nat, done: nat)
    requires WfInbox(ib) && ib.queue == [] && At(ib, i, done) && done <= |ib.conns|
    ensures forall k :: 0 <= k < |Ring(ib)| ==> WfConn(Ring(ib)[k])
    ensures Walked(Ring(ib), done, ServiceLoop(ib, i, |ib.conns| - done))
    decreases |ib.conns| - done
  {
    hide ServiceConn, Visit, At, CapSize, Rot;
    RingIsWf(ib);
    var ring := Ring(ib);
    var todo := ring[done..];
    if done == |ib.conns| {
      assert todo == [] && ring[..done] == ring;
      assert ring[..done] + [] == ring;
    } else {
      var v := Visit(ib, if i >= |ib.conns| then 0 else i);
      assert todo[0] == ring[done] && todo[1..] == ring[done + 1..];
      var s := ServiceConn(ring[done]);
      if s.got.None? {
        VisitPasses(ib, i, done);
        var kept := done + |Survivor(s)|;
        LoopIsWalk(v.0, v.1, kept);
        assert Ring(v.0)[..kept] == ring[..done] + Survivor(s);
        assert Ring(v.0)[kept..] == todo[1..];
        assert |v.0.conns| - kept == |ib.conns| - done - 1;
        var w := WalkRing(todo[1..]);
        assert ring[..done] + Survivor(s) + w.passed == ring[..done] + (Survivor(s) + w.passed);
      } else {
        VisitHits(ib, i, done);
        ServiceKeepsWf(ring[done]);
        assert ring[..done] + [] == ring[..done];
      }
    }
  }
}
