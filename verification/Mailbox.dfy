/** The inbox as the C file keeps it: connections with growable buffers, updated in place. Every
    method is proved to do exactly what its specification function does to the state. */
module Mailbox {
  import opened Wrappers
  import opened Bytes
  import opened Frames
  import opened Connection
  import opened InboxService
  import opened Protocol
  import opened Wakeups
  import opened Receives

  /** `get_u32` on the buffer itself. */
  function U32At(a: array<byte>, at: nat): (v: int)
    requires at + 4 <= a.Length
    reads a
    ensures forall n :: at + 4 <= n <= a.Length ==> v == GetU32(a[..n], at)
  {
    a[at] as int + 256 * a[at + 1] as int + 65536 * a[at + 2] as int + 16777216 * a[at + 3] as int
  }

  lemma SliceOfPrefix(s: bytes, len: nat, i: nat, j: nat)
    requires i <= j <= len <= |s|
    ensures s[i..j] == s[..len][i..j]
  {
  }

  lemma ServiceReads(c: Conn)
    requires |c.buf| <= c.cap && TakeFrame(c.buf) == NeedMore && c.input != [] && c.input[0].Arrived?
    ensures var cap := Grown(c.cap, |c.buf|);
      ServiceConn(c) == ServiceConn(Receive(c.(cap := cap), cap))
      && InputSize(Receive(c.(cap := cap), cap).input) < InputSize(c.input)
  {
    hide Receive, TakeFrame, Grown;
    ReceiveIgnoresCap(c, Grown(c.cap, |c.buf|));
  }

  lemma ReceiveIgnoresCap(c: Conn, cap: nat)
    requires c.input != [] && c.input[0].Arrived? && |c.buf| < cap
    ensures Receive(c.(cap := cap), cap) == Receive(c, cap)
  {
  }

  /** `WinConn`. The capacity is the buffer's length. */
  class WinConn {
    const id: nat
    var input: seq<RecvEvent>
    var buf: array<byte>
    var len: nat

    ghost predicate Ok()
      reads this
    {
      len <= buf.Length
    }

    ghost function View(): (c: Conn)
      requires Ok()
      reads this, buf
      ensures |c.buf| <= c.cap
    {
      Conn(id, input, buf[..len], buf.Length)
    }

    constructor (id: nat, input: seq<RecvEvent>)
      ensures this.id == id && fresh(buf)
      ensures Ok() && View() == Conn(id, input, [], 0)
    {
      this.id, this.input, len := id, input, 0;
      buf := new byte[0];
    }

    /** The first loop of `conn_take_frame`: where the last path ends. */
    method Measure(start: nat, nh: nat) returns (r: Scan)
      requires Ok()
      ensures r == ScanPaths(buf[..len], start, nh)
    {
      ghost var view := buf[..len];
      var at := start;
      var i := 0;
      while i < nh
        invariant 0 <= i <= nh && at >= 0
        invariant ScanPaths(view, start, nh) == ScanPaths(view, at, nh - i)
      {
        if len < at + 4 {
          return Short;
        }
        var pl := U32At(buf, at);
        if pl == 0 || pl > MAX_PATH {
          return BadLength;
        }
        at := at + 4 + pl;
        i := i + 1;
      }
      if len < at {
        return Short;
      }
      return Scan.End(at);
    }

    /** `memmove` of what follows the first `n` bytes to the front. */
    method Shift(n: nat)
      requires Ok() && n <= len
      modifies this`len, buf
      ensures Ok() && buf[..len] == old(buf[..len])[n..]
    {
      forall k | 0 <= k < len - n {
        buf[k] := buf[n + k];
      }
      len := len - n;
    }

    /** `conn_take_frame`. */
    method Take() returns (t: Frames.Take)
      requires Ok()
      modifies this`len, buf
      ensures Ok() && t == TakeFrame(old(View()).buf)
      ensures View() == old(View()).(buf := if t.Taken? then old(View()).buf[t.size..] else old(View()).buf)
    {
      if len < 8 {
        return NeedMore;
      }
      var plen := U32At(buf, 0);
      var nh := U32At(buf, 4);
      if plen > MAX_MESSAGE || nh > MAX_HANDLES {
        return Bad;
      }
      var m := Measure(8 + plen, nh);
      if m.Short? {
        return NeedMore;
      }
      if m.BadLength? {
        return Bad;
      }
      var payload := buf[8..8 + plen];
      assert payload == buf[..len][8..8 + plen];
      var paths := TakePaths(8 + plen, nh);
      t := Taken(Frame(payload, paths), m.at);
      hide ScanPaths, PathsAt;
      Shift(m.at);
    }

    /** The second loop of `conn_take_frame`, which copies the paths out. */
    method TakePaths(start: nat, nh: nat) returns (paths: seq<bytes>)
      requires Ok() && ScanPaths(buf[..len], start, nh).End?
      ensures paths == PathsAt(buf[..len], start, nh)
    {
      ghost var view := buf[..len];
      paths := [];
      var pos: nat := start;
      var i := 0;
      while i < nh
        invariant 0 <= i <= nh
        invariant ScanPaths(view, pos, nh - i).End?
        invariant paths + PathsAt(view, pos, nh - i) == PathsAt(view, start, nh)
      {
        var pl := U32At(buf, pos);
        assert pl == GetU32(view, pos);
        var next := pos + 4 + pl;
        assert ScanPaths(view, next, nh - i - 1).End?;
        assert next <= len;
        SliceOfPrefix(buf[..], len, pos + 4, next);
        paths := paths + [buf[pos + 4..next]];
        pos := pos + 4 + pl;
        i := i + 1;
      }
    }

    /** Make room for at least 64 KiB more, as `conn_service` does with realloc. */
    method Grow()
      requires Ok()
      modifies this
      ensures Ok() && (buf == old(buf) || fresh(buf))
      ensures View() == old(View()).(cap := Grown(old(View()).cap, old(len)))
    {
      if buf.Length - len < READ_ROOM {
        var cap := if buf.Length == 0 then READ_ROOM else buf.Length * 2;
        while cap - len < READ_ROOM
          invariant cap > 0 && Doubled(cap, len) == Grown(buf.Length, len)
          decreases len + READ_ROOM - cap
        {
          cap := cap * 2;
        }
        var grown := new byte[cap];
        forall k | 0 <= k < len {
          grown[k] := buf[k];
        }
        assert grown[..len] == buf[..len];
        buf := grown;
      }
    }

    /** `recv` into the free part of the buffer, when bytes have arrived. */
    method Recv()
      requires Ok() && len < buf.Length && input != [] && input[0].Arrived?
      modifies this, buf
      ensures Ok() && buf == old(buf)
      ensures View() == Receive(old(View()), buf.Length)
    {
      var data := input[0].data;
      var want := buf.Length - len;
      var n := if |data| <= want then |data| else want;
      forall k | 0 <= k < n {
        buf[len + k] := data[k];
      }
      assert buf[..len + n] == old(buf[..len]) + data[..n];
      assert data[..|data|] == data;
      len := len + n;
      if n < |data| {
        var left: Chunk := data[n..];
        input := [Arrived(left)] + input[1..];
      } else {
        input := input[1..];
      }
    }

    /** `conn_service`. */
    method Service() returns (got: Option<Item>, gone: bool)
      requires Ok()
      modifies this, buf
      ensures Ok() && (buf == old(buf) || fresh(buf))
      ensures Served(View(), got, gone) == ServiceConn(old(View()))
    {
      hide TakeFrame, Grown, Receive;
      while true
        invariant Ok() && (buf == old(buf) || fresh(buf))
        invariant ServiceConn(View()) == ServiceConn(old(View()))
        decreases InputSize(input)
      {
        ghost var c := View();
        var t := Take();
        if t.Taken? {
          return Some(Message(t.frame)), false;
        }
        if t.Bad? {
          return Some(Corrupt), true;
        }
        Grow();
        if input == [] {
          return None, false;
        }
        if input[0].WouldBlock? {
          input := input[1..];
          return None, false;
        }
        if !input[0].Arrived? {
          input := input[1..];
          return None, true;
        }
        assert View() == c.(cap := Grown(c.cap, |c.buf|));
        ServiceReads(c);
        Recv();
      }
    }
  }

  /** The process's one inbox. `views` is the value of each connection, kept for the specification. */
  class OwnInbox {
    var backlog: seq<Waiting>
    var conns: seq<WinConn>
    var nextRead: nat
    var startupOnly: bool
    var startupIndex: nat
    var queue: seq<Queued>
    ghost var views: seq<Conn>
    ghost var Repr: set<object>

    ghost predicate Valid()
      reads this, Repr
    {
      && this in Repr
      && |views| == |conns|
      && (forall i :: 0 <= i < |conns| ==>
            conns[i] in Repr && conns[i].buf in Repr && conns[i].Ok() && conns[i].View() == views[i])
      && (forall i, j :: 0 <= i < j < |conns| ==> conns[i] != conns[j] && conns[i].buf != conns[j].buf)
    }

    ghost function State(): Inbox
      reads this
    {
      Inbox(backlog, views, nextRead, startupOnly, startupIndex, queue)
    }

    /** `mailbox_open_at` for a child, `mailbox_open` for the root: the connections waiting at the open
        are accepted, and a child then listens only to the next one. */
    constructor (pending: seq<Waiting>, child: bool)
      ensures Valid() && fresh(Repr)
      ensures State() == InboxService.AcceptAll(Inbox(pending, [], 0, child, |pending|, []))
      ensures NothingUnseen(State())
    {
      backlog, conns, nextRead, startupOnly, startupIndex, queue := pending, [], 0, false, 0, [];
      views := [];
      Repr := {this};
      new;
      AcceptAll();
      assert |views| == |pending|;
      startupOnly := child;
      startupIndex := |conns|;
    }

    /** The body of the accept loop: one more connection, with no buffer yet. */
    method AcceptNext()
      requires Valid() && backlog != []
      modifies this
      ensures Valid() && fresh(Repr - old(Repr))
      ensures State() == old(State()).(backlog := old(backlog)[1..],
        conns := old(views) + [Conn(old(backlog)[0].id, old(backlog)[0].input, [], 0)])
    {
      hide WinConn.View, WinConn.Ok;
      var c := new WinConn(backlog[0].id, backlog[0].input);
      conns := conns + [c];
      views := views + [c.View()];
      Repr := Repr + {c, c.buf};
      backlog := backlog[1..];
    }

    /** `inbox_accept_all`. */
    method AcceptAll()
      requires Valid()
      modifies Repr
      ensures Valid() && fresh(Repr - old(Repr))
      ensures State() == InboxService.AcceptAll(old(State()))
    {
      hide InboxService.AcceptAll;
      while backlog != []
        invariant Valid() && fresh(Repr - old(Repr))
        invariant InboxService.AcceptAll(State()) == InboxService.AcceptAll(old(State()))
        decreases |backlog|
      {
        AcceptOne(State());
        AcceptNext();
      }
      AcceptNone(State());
    }

    /** `conn_drop`. */
    method Drop(i: nat)
      requires Valid() && i < |conns|
      modifies this
      ensures Valid() && Repr == old(Repr)
      ensures State() == DropConn(old(State()), i)
    {
      hide WinConn.View, WinConn.Ok;
      conns := conns[..i] + conns[i + 1..];
      views := views[..i] + views[i + 1..];
      assert forall k :: 0 <= k < |conns| ==>
        var k' := if k < i then k else k + 1;
        conns[k] == old(conns)[k'] && views[k] == old(views)[k'];
      if nextRead > i {
        nextRead := nextRead - 1;
      }
    }

    /** `conn_service` on the connection at `i`. */
    method ServeConn(i: nat) returns (got: Option<Item>, gone: bool)
      requires Valid() && i < |conns|
      modifies Repr
      ensures Valid() && fresh(Repr - old(Repr)) && |conns| == old(|conns|)
      ensures var s := ServiceConn(old(views)[i]);
        got == s.got && gone == s.gone && State() == old(State()).(conns := old(views)[i := s.conn])
    {
      hide ServiceConn;
      var c := conns[i];
      got, gone := c.Service();
      Repr := Repr + {c.buf};
      views := views[i := c.View()];
    }

    /** One round of the service loop: the connection at `i` is served, and dropped if it is gone. */
    method Serve(i: nat) returns (next: nat)
      requires Valid() && WfInbox(State()) && i < |conns|
      modifies Repr
      ensures Valid() && fresh(Repr - old(Repr))
      ensures (State(), next) == Visit(old(State()), i)
    {
      var id := conns[i].id;
      assert views[i].id == id;
      ServiceKeepsWf(views[i]);
      var got, gone := ServeConn(i);
      hide ServiceConn, Valid, WfInbox;
      if got.Some? {
        Push(Queued(id, got.value));
      }
      if gone {
        Drop(i);
        next := i;
      } else {
        next := i + 1;
      }
      if got.Some? {
        Resume(next);
      } else {
        assert old(queue) + [] == old(queue);
      }
    }

    /** `frame_push`. */
    method Push(q: Queued)
      requires Valid()
      modifies this`queue
      ensures Valid() && State() == old(State()).(queue := old(queue) + [q])
    {
      queue := queue + [q];
    }

    /** After a frame: the startup rule is over, and the next service starts after its sender. */
    method Resume(next: nat)
      requires Valid()
      modifies this`startupOnly, this`nextRead
      ensures Valid() && State() == old(State()).(startupOnly := false, nextRead := next)
    {
      startupOnly := false;
      nextRead := next;
    }

    /** The service loop. */
    method Loop(start: nat, rounds: nat)
      requires Valid() && WfInbox(State())
      modifies Repr
      ensures Valid() && fresh(Repr - old(Repr))
      ensures State() == ServiceLoop(old(State()), start, rounds)
    {
      hide WfInbox, Visit;
      var i: nat, tries: nat := start, rounds;
      while tries > 0 && queue == [] && |conns| > 0
        invariant Valid() && fresh(Repr - old(Repr)) && WfInbox(State())
        invariant ServiceLoop(State(), i, tries) == ServiceLoop(old(State()), start, rounds)
        decreases tries
      {
        i := Serve(if i >= |conns| then 0 else i);
        tries := tries - 1;
      }
    }

    /** `inbox_service`. */
    method Service()
      requires Valid() && WfInbox(State())
      modifies Repr
      ensures Valid() && fresh(Repr - old(Repr))
      ensures State() == InboxService.Service(old(State()))
    {
      AcceptAll();
      hide InboxService.AcceptAll, ServiceLoop;
      assert |conns| == |State().conns|;
      if queue != [] || |conns| == 0 {
        return;
      }
      if startupOnly && |conns| <= startupIndex {
        return;
      }
      if startupOnly {
        Loop(startupIndex, 1);
      } else {
        Loop(nextRead % |conns|, |conns|);
      }
    }

    /** Something reaches the socket of connection `id`. */
    method Reaches(id: nat, ch: Change)
      requires Valid()
      modifies Repr
      ensures Valid() && Repr == old(Repr)
      ensures State() == Feed(old(State()), id, ch)
    {
      assert |conns| == |views|;
      hide Valid, FeedConns;
      ghost var before, after := views, FeedConns(views, id, ch);
      FedLength(before, id, ch);
      ReachesWaiting(id, ch);
      ghost var state := State();
      var i := 0;
      assert after[..0] + before == before;
      while i < |conns|
        invariant 0 <= i <= |conns| == |views| == |before| == |after|
        invariant Valid() && Repr == old(Repr)
        invariant State() == state.(conns := views)
        invariant views == after[..i] + before[i..]
      {
        PutNext(after, before, i);
        FedAt(before, id, ch, i);
        ReachesAt(i, id, ch);
        i := i + 1;
      }
      assert after[..|after|] + [] == after;
    }

    method ReachesWaiting(id: nat, ch: Change)
      requires Valid()
      modifies this`backlog
      ensures Valid() && State() == Feed(old(State()), id, ch).(conns := views)
    {
      var waiting := backlog;
      backlog := seq(|waiting|, i requires 0 <= i < |waiting| =>
        if waiting[i].id == id then waiting[i].(input := Changed(waiting[i].input, ch)) else waiting[i]);
    }

    method ReachesAt(i: nat, id: nat, ch: Change)
      requires Valid() && i < |conns|
      modifies Repr
      ensures Valid() && |conns| == |views| && Repr == old(Repr) && conns == old(conns)
      ensures var c := old(views)[i];
        State() == old(State()).(conns :=
          old(views)[i := if c.id == id then c.(input := Changed(c.input, ch)) else c])
    {
      var c := conns[i];
      if c.id == id {
        c.input := Changed(c.input, ch);
        views := views[i := c.View()];
      }
    }

    /** The end of `channel_recv_fds`: the head is taken off the queue and the inbox serviced again. */
    method TakeQueued() returns (q: Queued)
      requires Valid() && WfInbox(State()) && queue != []
      modifies Repr
      ensures Valid() && fresh(Repr - old(Repr))
      ensures q == old(queue)[0] && State() == Dequeue(old(State()))
    {
      q := queue[0];
      queue := queue[1..];
      Service();
    }

    /** `channel_recv_fds` up to the frame it returns. Each element of `polls` is what happens while one
        poll sleeps; when there is none left the poll fails, and so does the receive. */
    method Receive(polls: seq<seq<Happening>>) returns (q: Option<Queued>)
      requires Valid() && WfInbox(State())
      modifies Repr
      ensures Valid() && fresh(Repr - old(Repr))
      ensures (State(), q) == Await(old(State()), polls)
      ensures old(NothingUnseen(State())) ==> NothingUnseen(State()) && (q.None? ==> queue == [] && Quiet(views))
    {
      hide WfInbox, InboxService.Service, Meet, Dequeue, NothingUnseen;
      if NothingUnseen(State()) {
        ReceiveLeavesNothingUnseen(State(), polls);
      }
      var k := 0;
      while true
        invariant 0 <= k <= |polls|
        invariant Valid() && fresh(Repr - old(Repr)) && WfInbox(State())
        invariant Await(State(), polls[k..]) == Await(old(State()), polls)
        decreases |polls| - k
      {
        Service();
        if queue != [] {
          var head := TakeQueued();
          return Some(head);
        }
        if k == |polls| {
          return None;
        }
        assert polls[k..][1..] == polls[k + 1..];
        Poll(polls[k]);
        k := k + 1;
      }
    }

    method Poll(happenings: seq<Happening>)
      requires Valid() && WfInbox(State())
      modifies Repr
      ensures Valid() && Repr == old(Repr)
      ensures State() == MeetAll(old(State()), happenings) && WfInbox(State())
    {
      var k := 0;
      while k < |happenings|
        invariant 0 <= k <= |happenings|
        invariant Valid() && Repr == old(Repr)
        invariant MeetAll(State(), happenings[k..]) == MeetAll(old(State()), happenings)
      {
        assert happenings[k..][0] == happenings[k] && happenings[k..][1..] == happenings[k + 1..];
        hide Feed;
        match happenings[k] {
          case Reaches(id, change) => Reaches(id, change);
          case Knocks(id) => backlog := backlog + [Waiting(id, [])];
        }
        k := k + 1;
      }
      MeetAllIsWf(old(State()), happenings);
    }
  }

  lemma FedLength(cs: seq<Conn>, id: nat, ch: Change)
    ensures |FeedConns(cs, id, ch)| == |cs|
  {
  }

  lemma FedAt(cs: seq<Conn>, id: nat, ch: Change, i: nat)
    requires i < |cs| && |FeedConns(cs, id, ch)| == |cs|
    ensures FeedConns(cs, id, ch)[i] ==
      if cs[i].id == id then cs[i].(input := Changed(cs[i].input, ch)) else cs[i]
  {
  }

  lemma PutNext<T>(after: seq<T>, before: seq<T>, i: nat)
    requires i < |before| == |after|
    ensures (after[..i] + before[i..])[i := after[i]] == after[..i + 1] + before[i + 1..]
    ensures (after[..i] + before[i..])[i] == before[i]
  {
  }

  lemma AcceptNone(ib: Inbox)
    requires ib.backlog == []
    ensures InboxService.AcceptAll(ib) == ib
  {
    assert InboxService.AcceptAll(ib).conns == ib.conns;
  }

  lemma AcceptOne(ib: Inbox)
    requires ib.backlog != []
    ensures InboxService.AcceptAll(ib.(backlog := ib.backlog[1..],
      conns := ib.conns + [Conn(ib.backlog[0].id, ib.backlog[0].input, [], 0)])) == InboxService.AcceptAll(ib)
  {
    var a := InboxService.AcceptAll(ib);
    var b := InboxService.AcceptAll(ib.(backlog := ib.backlog[1..],
      conns := ib.conns + [Conn(ib.backlog[0].id, ib.backlog[0].input, [], 0)]));
    assert a.conns == b.conns;
  }
}
