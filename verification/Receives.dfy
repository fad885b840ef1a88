/** `channel_recv_fds` as a part of a run: a receive, its sleeps included, is some steps of the protocol. */
module Receives {
  import opened Wrappers
  import opened Connection
  import opened InboxService
  import opened Protocol
  import opened ProtocolRuns
  import opened RunTheorems
  import opened Wakeups

  /** What may happen to an inbox while it sleeps: something reaches a socket, or somebody connects. */
  datatype Happening = Reaches(id: nat, change: Change) | Knocks(id: nat)

  function Meet(ib: Inbox, h: Happening): Inbox {
    match h
    case Reaches(id, change) => Feed(ib, id, change)
    case Knocks(id) => ib.(backlog := ib.backlog + [Waiting(id, [])])
  }

  function MeetAll(ib: Inbox, hs: seq<Happening>): Inbox
    decreases |hs|
  {
    if hs == [] then ib else MeetAll(Meet(ib, hs[0]), hs[1..])
  }

  lemma {:induction false} MeetAllIsWf(ib: Inbox, hs: seq<Happening>)
    requires WfInbox(ib)
    ensures WfInbox(MeetAll(ib, hs))
    decreases |hs|
  {
    if hs != [] {
      MeetAllIsWf(Meet(ib, hs[0]), hs[1..]);
    }
  }

  /** A blocking receive: service, and if nothing was queued sleep until something happens. Each element of `polls`
      is what happens during one sleep; when there is none left the poll fails, and so does the receive. */
  function Await(ib: Inbox, polls: seq<seq<Happening>>): (r: (Inbox, Option<Queued>))
    requires WfInbox(ib)
    ensures WfInbox(r.0)
    decreases |polls|
  {
    var s := Service(ib);
    if s.queue != [] then (Dequeue(s), Some(s.queue[0]))
    else if polls == [] then (s, None)
    else
      MeetAllIsWf(s, polls[0]);
      Await(MeetAll(s, polls[0]), polls[1..])
  }

  // ----- whatever happens, no message is left unseen -----

  /** At most one frame is queued; with none, no buffer holds a whole one; and the startup rule holds. */
  ghost predicate NothingUnseen(ib: Inbox) {
    && |ib.queue| <= 1
    && (ib.queue == [] ==> Quiet(ib.conns))
    && StartupRule(ib, ib.queue)
  }

  lemma {:induction false} UnseenAfterMeetings(ib: Inbox, hs: seq<Happening>)
    requires WfInbox(ib) && NothingUnseen(ib)
    ensures WfInbox(MeetAll(ib, hs)) && NothingUnseen(MeetAll(ib, hs))
    decreases |hs|
  {
    if hs != [] {
      var next := Meet(ib, hs[0]);
      if hs[0].Reaches? {
        AwakeAfterFeed(ib, hs[0].id, hs[0].change, ib.queue);
        FeedIsWf(ib, hs[0].id, hs[0].change);
      }
      hide Quiet, StartupRule;
      UnseenAfterMeetings(next, hs[1..]);
    }
  }

  lemma {:induction false} QueueStaysShort(ib: Inbox, i: nat, tries: nat)
    requires WfInbox(ib) && |ib.queue| <= 1
    ensures |ServiceLoop(ib, i, tries).queue| <= 1
    decreases tries
  {
    if tries > 0 && ib.queue == [] && ib.conns != [] {
      var v := Visit(ib, if i >= |ib.conns| then 0 else i);
      QueueStaysShort(v.0, v.1, tries - 1);
    }
  }

  lemma UnseenAfterService(ib: Inbox)
    requires WfInbox(ib) && |ib.queue| <= 1 && StartupRule(ib, ib.queue)
    requires ib.startupOnly && ib.queue == [] ==> Quiet(ib.conns)
    ensures NothingUnseen(Service(ib))
  {
    assert [] + ib.queue == ib.queue;
    AwakeAfterService(ib, []);
    var a, r := AcceptAll(ib), Service(ib);
    assert [] + r.queue == r.queue;
    hide Quiet, StartupRule, ServiceLoop;
    if a.conns != [] {
      QueueStaysShort(a, a.startupIndex, 1);
      QueueStaysShort(a, a.nextRead % |a.conns|, |a.conns|);
    }
  }

  /** The receive answers a frame, or fails with an empty queue, having read all it could: whichever it is, no
      buffer holds a whole frame while the queue is empty. */
  lemma {:induction false} ReceiveLeavesNothingUnseen(ib: Inbox, polls: seq<seq<Happening>>)
    requires WfInbox(ib) && NothingUnseen(ib)
    ensures var (r, q) := Await(ib, polls);
      NothingUnseen(r) && (q.None? ==> r.queue == [] && Quiet(r.conns))
    decreases |polls|
  {
    UnseenAfterService(ib);
    var s := Service(ib);
    if s.queue != [] {
      var left := s.(queue := s.queue[1..]);
      UnseenAfterService(left);
    } else if polls != [] {
      hide NothingUnseen, Service;
      UnseenAfterMeetings(s, polls[0]);
      ReceiveLeavesNothingUnseen(MeetAll(s, polls[0]), polls[1..]);
    }
  }

  // ----- a receive is a run -----

  /** Anything but the receiver's own steps. */
  predicate Outside(s: Step) { !s.RunService? && !s.TakeHead? }

  predicate AllOutside(rounds: seq<seq<Step>>) {
    forall i, j :: 0 <= i < |rounds| && 0 <= j < |rounds[i]| ==> Outside(rounds[i][j])
  }

  /** What a step of a sender or the network does to the inbox. */
  function Seen(w: World, s: Step): seq<Happening> {
    if !Enabled(w, s) then []
    else
      match s
      case Connect(id) => [Knocks(id)]
      case Deliver(id, n) =>
        var data: Chunk := w.links[id].wire[..n];
        [Reaches(id, Append(Arrived(data)))]
      case Lull(id) => [Reaches(id, Append(WouldBlock))]
      case Finish(id) => [Reaches(id, Append(Ended))]
      case Die(id, keep) => [Reaches(id, CutShort(keep))]
      case _ => []
  }

  function AllSeen(w: World, steps: seq<Step>): seq<Happening>
    requires WfInbox(w.inbox)
    decreases |steps|
  {
    if steps == [] then []
    else
      FeedKeepsWf(w, steps[0]);
      Seen(w, steps[0]) + AllSeen(Apply(w, steps[0]), steps[1..])
  }

  lemma StepIsSeen(w: World, s: Step)
    requires WfInbox(w.inbox) && Outside(s)
    ensures Apply(w, s).received == w.received
    ensures MeetAll(w.inbox, Seen(w, s)) == Apply(w, s).inbox
  {
    var hs := Seen(w, s);
    if hs != [] {
      assert hs == [hs[0]] && hs[1..] == [];
      hide Feed;
      assert MeetAll(w.inbox, hs) == Meet(w.inbox, hs[0]);
    }
  }

  lemma {:induction false} MeetAllConcat(ib: Inbox, a: seq<Happening>, b: seq<Happening>)
    ensures MeetAll(ib, a + b) == MeetAll(MeetAll(ib, a), b)
    decreases |a|
  {
    if a == [] {
      assert a + b == b;
    } else {
      assert (a + b)[1..] == a[1..] + b;
      hide Meet;
      MeetAllConcat(Meet(ib, a[0]), a[1..], b);
    }
  }

  lemma {:induction false} StepsAreSeen(w: World, steps: seq<Step>)
    requires WfInbox(w.inbox) && forall i :: 0 <= i < |steps| ==> Outside(steps[i])
    ensures Run(w, steps).received == w.received
    ensures MeetAll(w.inbox, AllSeen(w, steps)) == Run(w, steps).inbox
    decreases |steps|
  {
    if steps != [] {
      FeedKeepsWf(w, steps[0]);
      StepIsSeen(w, steps[0]);
      var next := Apply(w, steps[0]);
      hide Apply, Seen, Outside;
      StepsAreSeen(next, steps[1..]);
      MeetAllConcat(w.inbox, Seen(w, steps[0]), AllSeen(next, steps[1..]));
    }
  }

  /** What the inbox sees of each round of steps, when a service stands before each. */
  function Sleeps(w: World, rounds: seq<seq<Step>>): seq<seq<Happening>>
    requires WfInbox(w.inbox)
    decreases |rounds|
  {
    if rounds == [] then []
    else
      var s := Apply(w, RunService);
      [AllSeen(s, rounds[0])] + Sleeps(Run(s, rounds[0]), rounds[1..])
  }

  lemma {:induction false} RunConcat(w: World, a: seq<Step>, b: seq<Step>)
    requires WfInbox(w.inbox)
    ensures Run(w, a + b) == Run(Run(w, a), b)
    decreases |a|
  {
    if a == [] {
      assert a + b == b;
    } else {
      FeedKeepsWf(w, a[0]);
      assert (a + b)[1..] == a[1..] + b;
      hide Apply;
      RunConcat(Apply(w, a[0]), a[1..], b);
    }
  }

  /** A run that has given the receiver `q`, the next frame in the log; or none, and then the queue is empty. */
  ghost predicate Gives(w: World, steps: seq<Step>, r: Inbox, q: Option<Queued>)
    requires WfInbox(w.inbox)
  {
    var w' := Run(w, steps);
    && w'.inbox == r
    && if q.Some? then w'.received == w.received + [q.value] else w'.received == w.received && r.queue == []
  }

  /** A receive, whatever the senders and the network do in each of its sleeps, is a run of the protocol. */
  lemma {:induction false} ReceiveIsARun(w: World, rounds: seq<seq<Step>>) returns (steps: seq<Step>)
    requires Inv(w) && AllOutside(rounds)
    ensures var (r, q) := Await(w.inbox, Sleeps(w, rounds)); Gives(w, steps, r, q)
    decreases |rounds|
  {
    var s := Apply(w, RunService);
    InvStep(w, RunService);
    if s.inbox.queue != [] {
      steps := [RunService, TakeHead];
      TwoSteps(w, RunService, TakeHead);
    } else if rounds == [] {
      steps := [RunService];
      OneStep(w, RunService);
    } else {
      var next := Run(s, rounds[0]);
      hide Inv;
      InvRun(s, rounds[0]);
      StepsAreSeen(s, rounds[0]);
      assert AllOutside(rounds[1..]);
      hide AllOutside;
      var more := ReceiveIsARun(next, rounds[1..]);
      steps := [RunService] + rounds[0] + more;
      OneStep(w, RunService);
      RunConcat(w, [RunService], rounds[0]);
      RunConcat(w, [RunService] + rounds[0], more);
    }
  }

  /** So the theorems about runs hold of programs that receive: a receive after a run is more of that run, and it
      leaves nothing unseen. */
  lemma ReceiveGoesOn(pending: seq<nat>, child: bool, steps: seq<Step>, rounds: seq<seq<Step>>)
    returns (more: seq<Step>)
    requires Distinct(pending) && AllOutside(rounds)
    ensures var w := Run(Opened(pending, child), steps);
      var (r, q) := Await(w.inbox, Sleeps(w, rounds));
      && Gives(w, more, r, q) && NothingUnseen(r)
      && Run(Opened(pending, child), steps + more) == Run(w, more)
  {
    var o := Opened(pending, child);
    var w := Run(o, steps);
    InvOpened(pending, child);
    AwakeOpened(pending, child);
    AwakeRun(o, steps);
    assert NothingUnseen(w.inbox);
    hide Inv, NothingUnseen, Await, Run;
    more := ReceiveIsARun(w, rounds);
    RunConcat(o, steps, more);
    ReceiveLeavesNothingUnseen(w.inbox, Sleeps(w, rounds));
  }

  lemma OneStep(w: World, s: Step)
    requires WfInbox(w.inbox)
    ensures Run(w, [s]) == Apply(w, s)
  {
    assert [s][1..] == [];
  }

  lemma TwoSteps(w: World, s: Step, t: Step)
    requires WfInbox(w.inbox)
    ensures WfInbox(Apply(w, s).inbox) && Run(w, [s, t]) == Apply(Apply(w, s), t)
  {
    FeedKeepsWf(w, s);
    assert [s, t][1..] == [t];
    hide Apply;
    OneStep(Apply(w, s), t);
  }
}
