/** One inbound connection: its socket, its reassembly buffer, and `conn_service`. */
module Connection {
  import opened Wrappers
  import opened Bytes
  import opened Frames

  type Chunk = s: bytes | s != [] witness [0]

  /** What successive calls of `recv` will answer: some bytes, nothing yet, the orderly end, or an error. */
  datatype RecvEvent = Arrived(data: Chunk) | WouldBlock | Ended | Reset

  /** `WinConn`. `id` names the socket, `input` is what its reads will answer, `buf` is the first
      `len` bytes of the buffer and `cap` its allocated size. */
  datatype Conn = Conn(id: nat, input: seq<RecvEvent>, buf: bytes, cap: nat)

  const READ_ROOM := 65536

  /** The largest buffer a connection ever has. */
  const MAX_CAP := 8388608

  /** The sizes that doubling from 64 KiB can reach while frames are within their limits. */
  predicate CapSize(cap: nat) {
    cap in {0, 65536, 131072, 262144, 524288, 1048576, 2097152, 4194304, 8388608}
  }

  predicate WfConn(c: Conn) {
    CapSize(c.cap) && |c.buf| <= c.cap
  }

  /** The inner growth loop of `conn_service`. */
  function Doubled(cap: nat, len: nat): (r: nat)
    requires cap > 0
    ensures r >= cap && r >= len + READ_ROOM
    decreases len + READ_ROOM - cap
  {
    if cap < len + READ_ROOM then Doubled(2 * cap, len) else cap
  }

  /** The capacity before a read: grown only when less than 64 KiB of room is left. */
  function Grown(cap: nat, len: nat): (r: nat)
    requires len <= cap
    ensures r >= cap && r >= len + READ_ROOM
  {
    if cap - len < READ_ROOM then Doubled(if cap == 0 then READ_ROOM else 2 * cap, len) else cap
  }

  /** Growing happens only while no whole frame is buffered, so the capacity stays within its bound. */
  lemma GrowthIsBounded(c: Conn)
    requires WfConn(c) && TakeFrame(c.buf) == NeedMore
    ensures CapSize(Grown(c.cap, |c.buf|))
    ensures Grown(c.cap, |c.buf|) in {c.cap, 2 * c.cap, READ_ROOM}
  {
    WaitingIsBounded(c.buf);
  }

  function InputSize(input: seq<RecvEvent>): nat {
    if input == [] then 0
    else (if input[0].Arrived? then |input[0].data| else 0) + InputSize(input[1..])
  }

  datatype Served = Served(conn: Conn, got: Option<Item>, gone: bool)

  /** One `recv` of at most `want` bytes, when bytes have arrived. */
  function Receive(c: Conn, cap: nat): (r: Conn)
    requires c.input != [] && c.input[0].Arrived? && |c.buf| < cap
    ensures |r.buf| <= cap && InputSize(r.input) < InputSize(c.input)
  {
    var data := c.input[0].data;
    var want := cap - |c.buf|;
    if |data| <= want then c.(buf := c.buf + data, cap := cap, input := c.input[1..])
    else
      var left: Chunk := data[want..];
      var input' := [Arrived(left)] + c.input[1..];
      assert input'[1..] == c.input[1..];
      c.(buf := c.buf + data[..want], cap := cap, input := input')
  }

  /** `conn_service`: read until a frame completes, the stream is found corrupt, the read would block,
      or the connection is over. */
  function ServiceConn(c: Conn): (r: Served)
    requires |c.buf| <= c.cap
    decreases InputSize(c.input)
  {
    match TakeFrame(c.buf)
    case Taken(f, n) => Served(c.(buf := c.buf[n..]), Some(Message(f)), false)
    case Bad => Served(c, Some(Corrupt), true)
    case NeedMore =>
      var cap := Grown(c.cap, |c.buf|);
      if c.input == [] then Served(c.(cap := cap), None, false)
      else if c.input[0].WouldBlock? then Served(c.(cap := cap, input := c.input[1..]), None, false)
      else if c.input[0].Arrived? then ServiceConn(Receive(c, cap))
      else Served(c.(cap := cap, input := c.input[1..]), None, true)
  }

  /** The bytes still to come on a connection, up to its end. */
  function Flight(input: seq<RecvEvent>): bytes {
    if input == [] || input[0].Ended? || input[0].Reset? then []
    else if input[0].Arrived? then input[0].data + Flight(input[1..])
    else Flight(input[1..])
  }

  /** The stream as its receiver still has it: what is in memory and what is still to come. */
  function Stream(c: Conn): bytes {
    c.buf + Flight(c.input)
  }

  lemma ReceiveKeepsStream(c: Conn, cap: nat)
    requires c.input != [] && c.input[0].Arrived? && |c.buf| < cap
    ensures var r := Receive(c, cap);
      r.buf + Flight(r.input) == c.buf + Flight(c.input) && r.id == c.id
  {
    var data := c.input[0].data;
    var want := cap - |c.buf|;
    if |data| > want {
      assert data == data[..want] + data[want..];
      var r := Receive(c, cap);
      assert r.input[1..] == c.input[1..];
    }
  }

  /** Service keeps the buffer within bounds. */
  lemma {:induction false} ServiceKeepsWf(c: Conn)
    requires WfConn(c)
    ensures WfConn(ServiceConn(c).conn) && ServiceConn(c).conn.id == c.id
    decreases InputSize(c.input)
  {
    if TakeFrame(c.buf) == NeedMore {
      GrowthIsBounded(c);
      var cap := Grown(c.cap, |c.buf|);
      if c.input != [] && c.input[0].Arrived? {
        ServiceKeepsWf(Receive(c, cap));
      }
    }
  }

  /** Conservation: a service takes exactly one frame's encoding off the front of the stream, or
      nothing; a connection that is gone quietly leaves less than one frame unread; a corrupt frame is
      queued only when the stream really starts with one. However the arrivals are cut up. */
  ghost predicate Conserves(s: bytes, r: Served) {
    match r.got
    case None => if r.gone then s == r.conn.buf else s == Stream(r.conn)
    case Some(Message(f)) => Deliverable(f) && s == Encode(f) + Stream(r.conn)
    case Some(Corrupt) => Items(s) == [Corrupt]
  }

  lemma {:induction false} ServiceConserves(c: Conn)
    requires |c.buf| <= c.cap
    ensures Conserves(Stream(c), ServiceConn(c))
    decreases InputSize(c.input)
  {
    hide Encode, Grown, TakeFrame;
    match TakeFrame(c.buf)
    case Taken(f, n) =>
      EncodedOfTaken(c.buf);
      assert c.buf == Encode(f) + c.buf[n..];
    case Bad => TakeExtends(c.buf, Flight(c.input)); assert Items(Stream(c)) == [Corrupt];
    case NeedMore =>
      if c.input == [] || c.input[0].WouldBlock? {
      } else if c.input[0].Arrived? {
        var cap := Grown(c.cap, |c.buf|);
        ReceiveKeepsStream(c, cap);
        ServiceConserves(Receive(c, cap));
      } else {
        assert Stream(c) == c.buf;
      }
  }

  /** What service leaves behind: unless it queued something, no whole frame is in the buffer;
      it drops a connection only at its end or once its stream is corrupt. */
  lemma {:induction false} ServiceLeaves(c: Conn)
    requires |c.buf| <= c.cap
    ensures var r := ServiceConn(c);
      && (r.got.None? ==> TakeFrame(r.conn.buf) == NeedMore)
      && (r.gone ==> r.got == Some(Corrupt) || (r.got.None? && HasEnd(c.input)))
      && (r.got == Some(Corrupt) ==> r.gone)
      && (!HasEnd(c.input) ==> !HasEnd(r.conn.input))
    decreases InputSize(c.input)
  {
    if TakeFrame(c.buf) == NeedMore && c.input != [] && c.input[0].Arrived? {
      var cap := Grown(c.cap, |c.buf|);
      var c' := Receive(c, cap);
      ServiceLeaves(c');
    }
  }

  /** What the reads bring before one finds nothing or the end, and what stands there. */
  function Arriving(input: seq<RecvEvent>): bytes {
    if input != [] && input[0].Arrived? then input[0].data + Arriving(input[1..]) else []
  }

  function Pending(input: seq<RecvEvent>): seq<RecvEvent> {
    if input != [] && input[0].Arrived? then Pending(input[1..]) else input
  }

  predicate Ends(input: seq<RecvEvent>) { input != [] && (input[0].Ended? || input[0].Reset?) }

  lemma ReceiveKeepsArriving(c: Conn, cap: nat)
    requires c.input != [] && c.input[0].Arrived? && |c.buf| < cap
    ensures var r := Receive(c, cap);
      r.buf + Arriving(r.input) == c.buf + Arriving(c.input) && Pending(r.input) == Pending(c.input)
  {
    var data, want := c.input[0].data, cap - |c.buf|;
    if |data| > want {
      assert data == data[..want] + data[want..];
      assert Receive(c, cap).input[1..] == c.input[1..];
    }
  }

  /** What a service answers is told by all that has arrived, however it was cut up and whatever the capacity: the frame
      at its front, that it is corrupt, or nothing; and then all of it is kept, and the connection dropped if it ends. */
  lemma {:induction false} ServiceIs(c: Conn)
    requires |c.buf| <= c.cap
    ensures var s, rest, r := c.buf + Arriving(c.input), Pending(c.input), ServiceConn(c);
      match TakeFrame(s)
      case Taken(f, _) => r.got == Some(Message(f)) && !r.gone
      case Bad => r.got == Some(Corrupt) && r.gone
      case NeedMore =>
        r.got == None && r.conn.buf == s && r.gone == Ends(rest) && r.conn.input == if rest == [] then [] else rest[1..]
    decreases InputSize(c.input)
  {
    hide TakeFrame, Grown;
    if TakeFrame(c.buf) == NeedMore {
      if c.input != [] && c.input[0].Arrived? {
        var cap := Grown(c.cap, |c.buf|);
        ReceiveKeepsArriving(c, cap);
        ServiceIs(Receive(c, cap));
      } else {
        assert c.buf + [] == c.buf;
      }
    } else {
      TakeExtends(c.buf, Arriving(c.input));
    }
  }

  /** Whether the input reaches the end of the connection. */
  ghost predicate HasEnd(input: seq<RecvEvent>) {
    exists i :: 0 <= i < |input| && (input[i].Ended? || input[i].Reset?)
  }

  lemma {:induction false} FlightAppends(input: seq<RecvEvent>, e: RecvEvent)
    ensures Flight(input + [e]) ==
      Flight(input) + (if e.Arrived? && !HasEnd(input) then e.data else [])
  {
    if input == [] {
      assert [e][1..] == [];
    } else {
      assert (input + [e])[1..] == input[1..] + [e];
      if input[0].Ended? || input[0].Reset? {
      } else {
        FlightAppends(input[1..], e);
        assert HasEnd(input) == HasEnd(input[1..]) by {
          if HasEnd(input) {
            var i :| 0 <= i < |input| && (input[i].Ended? || input[i].Reset?);
            assert input[1..][i - 1] == input[i];
          }
          if HasEnd(input[1..]) {
            var i :| 0 <= i < |input[1..]| && (input[1..][i].Ended? || input[1..][i].Reset?);
            assert input[i + 1] == input[1..][i];
          }
        }
      }
    }
  }

  lemma {:induction false} FlightOfCut(input: seq<RecvEvent>, keep: nat)
    requires keep <= |input|
    ensures Flight(input[..keep] + [Reset]) <= Flight(input)
  {
    if keep == 0 {
    } else {
      assert (input[..keep] + [Reset])[1..] == input[1..][..keep - 1] + [Reset];
      FlightOfCut(input[1..], keep - 1);
    }
  }

  /** A whole frame (or a corrupt one) can be taken from this connection now. */
  predicate Ready(c: Conn)
    requires |c.buf| <= c.cap
  {
    ServiceConn(c).got.Some?
  }

  /** A later arrival does not take the frame away. */
  lemma {:induction false} ReadyStays(c: Conn, e: RecvEvent)
    requires |c.buf| <= c.cap && Ready(c)
    ensures Ready(c.(input := c.input + [e]))
    decreases InputSize(c.input)
  {
    var d := c.(input := c.input + [e]);
    if TakeFrame(c.buf) == NeedMore {
      var cap := Grown(c.cap, |c.buf|);
      assert c.input != [] && c.input[0].Arrived?;
      assert d.input[1..] == c.input[1..] + [e];
      var c' := Receive(c, cap);
      assert Receive(d, cap) == c'.(input := c'.input + [e]);
      ReadyStays(c', e);
    }
  }
}
