/** `peers` and `handle_slots` as the C file keeps them: one reference-counted connection object for each
    path in use, shared by the handles to it. */
module HandleStore {
  import opened Wrappers
  import opened Bytes
  import opened Frames
  import opened Protocol
  import opened ProtocolRuns
  import opened Handles

  /** What successive calls of `send` will answer: some bytes taken, no room (and what the wait for room
      then reports), or an error. An exhausted list is an error. */
  datatype SendEvent = Took(n: nat) | Full(roomComes: bool) | Failed

  /** What a send that answered `rc` has done to the stream: all of the bytes, none, or a part. */
  predicate Wrote(rc: SendOutcome, data: bytes, before: bytes, after: bytes) {
    match rc
    case SentOk => after == before + data
    case SentFull => after == before
    case SentError(k) => k < |data| && after == before + data[..k]
  }

  /** One send: its frame, its answer, and the stream after it. */
  datatype Sending = Sending(frame: Frame, outcome: SendOutcome, wire: bytes)

  predicate Possible(x: Sending) {
    Sendable(x.frame) && (x.outcome.SentError? ==> x.outcome.wrote < |Encode(x.frame)|)
  }

  /** The sender's end of a connection after several sends. */
  function AfterSends(l: Link, xs: seq<Sending>): Link
    requires forall x :: x in xs ==> Possible(x)
    decreases |xs|
  {
    if xs == [] then l
    else
      assert Possible(xs[0]);
      AfterSends(AfterSend(l, xs[0].frame, xs[0].outcome), xs[1..])
  }

  /** Each send starts from what the one before it left, and only the last may fail. */
  ghost predicate InTurn(before: bytes, xs: seq<Sending>)
    decreases |xs|
  {
    xs != [] ==>
      && Possible(xs[0]) && Wrote(xs[0].outcome, Encode(xs[0].frame), before, xs[0].wire)
      && (|xs| > 1 ==> !xs[0].outcome.SentError?)
      && InTurn(xs[0].wire, xs[1..])
  }

  /** Successive sends on one connection leave on its stream exactly what the books of the protocol say was
      written: the frames sent OK in order, and the part of one cut off. */
  lemma {:induction false} SendsAreWritten(l: Link, xs: seq<Sending>)
    requires WfLink(l) && !l.hungUp && InTurn(Written(l), xs) && xs != []
    ensures forall x :: x in xs ==> Possible(x)
    ensures WfLink(AfterSends(l, xs)) && Written(AfterSends(l, xs)) == xs[|xs| - 1].wire
    decreases |xs|
  {
    var x, l' := xs[0], AfterSend(l, xs[0].frame, xs[0].outcome);
    var wrote := WrittenAfterSend(l, x.frame, x.outcome);
    OneWrite(l, x.frame, x.outcome, Written(l), x.wire);
    assert x.outcome.SentError? || !l'.hungUp;
    hide Written, WfLink, AfterSend, Wrote, Possible;
    if |xs| > 1 {
      SendsAreWritten(l', xs[1..]);
      assert forall y :: y in xs ==> y == x || y in xs[1..];
    } else {
      assert xs == [x] && xs[1..] == [];
      assert forall y :: y in xs ==> y == x;
    }
  }

  lemma OneWrite(l: Link, f: Frame, o: SendOutcome, before: bytes, after: bytes)
    requires l.cut.None? && before == Written(l) && Wrote(o, Encode(f), before, after)
    ensures after == Written(AfterSend(l, f, o))
  {
    hide Encode;
    if o.SentOk? {
      EncodeAllConcat(l.sent, [f]);
      assert EncodeAll([f]) == Encode(f);
    }
  }

  /** `WinPeer`. `open` is false when the inbox was not there; `onWire` is what was written so far. */
  class WinPeer {
    const path: bytes
    var open: bool
    var refs: nat
    var hungUp: bool
    var sends: seq<SendEvent>
    var onWire: bytes

    constructor (path: bytes, open: bool, sends: seq<SendEvent>)
      ensures this.path == path && this.open == open && refs == 0 && onWire == []
    {
      this.path, this.open, this.sends := path, open, sends;
      refs, hungUp, onWire := 0, !open, [];
    }

    /** `send_frame_bytes`: a refusal of the first write leaves the stream as it was; after that the
        frame is finished, or the connection has failed inside it. */
    method SendBytes(data: bytes) returns (rc: SendOutcome)
      requires data != []
      modifies this`sends, this`onWire
      ensures (rc, sends) == Answered(old(sends), |data|, 0)
      ensures Wrote(rc, data, old(onWire), onWire)
    {
      var sent := 0;
      while sent < |data|
        invariant 0 <= sent <= |data|
        invariant onWire == old(onWire) + data[..sent]
        invariant Answered(sends, |data|, sent) == Answered(old(sends), |data|, 0)
        decreases |sends|
      {
        if sends == [] {
          return SentError(sent);
        }
        var e := sends[0];
        sends := sends[1..];
        match e
        case Took(n) =>
          var want := if |data| - sent > SEND_MOST then SEND_MOST else |data| - sent;
          if n == 0 {
            return SentError(sent);
          }
          var taken := if n <= want then n else want;
          onWire := onWire + data[sent..sent + taken];
          assert data[..sent] + data[sent..sent + taken] == data[..sent + taken];
          sent := sent + taken;
        case Failed => return SentError(sent);
        case Full(roomComes) =>
          if sent == 0 {
            return SentFull;
          }
          if !roomComes {
            return SentError(sent);
          }
      }
      assert data[..|data|] == data;
      return SentOk;
    }
  }

  /** The most that is offered to one `send`. */
  const SEND_MOST: nat := 0x40000000

  function Least(a: nat, b: nat): nat { if a <= b then a else b }

  /** What a write takes of the `left` bytes offered to it. */
  function Now(e: SendEvent, left: nat): (n: nat)
    ensures n <= left
  {
    if e.Took? then Least(e.n, Least(SEND_MOST, left)) else 0
  }

  /** What a send of `total` bytes, `sent` of them written, answers, and the answers of `send` it leaves. */
  function Answered(sends: seq<SendEvent>, total: nat, sent: nat): (SendOutcome, seq<SendEvent>)
    requires sent <= total
    decreases |sends|
  {
    if sent == total then (SentOk, sends)
    else if sends == [] then (SentError(sent), sends)
    else
      match sends[0]
      case Failed => (SentError(sent), sends[1..])
      case Took(n) =>
        if n == 0 then (SentError(sent), sends[1..])
        else Answered(sends[1..], total, sent + Now(sends[0], total - sent))
      case Full(roomComes) =>
        if sent == 0 then (SentFull, sends[1..])
        else if !roomComes then (SentError(sent), sends[1..])
        else Answered(sends[1..], total, sent)
  }

  /** A write that moves the frame on, or a wait after which there is room. */
  predicate MovesOn(e: SendEvent) { (e.Took? && e.n > 0) || (e.Full? && e.roomComes) }

  /** The bytes that the first `m` writes take between them. */
  function TakenBy(sends: seq<SendEvent>, m: nat): nat
    requires m <= |sends|
    decreases m
  {
    if m == 0 then 0
    else (if sends[0].Took? then Least(sends[0].n, SEND_MOST) else 0) + TakenBy(sends[1..], m - 1)
  }

  /** Some first writes all move on and take what is left. */
  ghost predicate Carried(sends: seq<SendEvent>, left: nat) {
    exists m: nat :: m <= |sends| && CarriedBy(sends, left, m)
  }

  ghost predicate CarriedBy(sends: seq<SendEvent>, left: nat, m: nat)
    requires m <= |sends|
  {
    (forall i :: 0 <= i < m ==> MovesOn(sends[i])) && TakenBy(sends, m) >= left
  }

  lemma {:induction false} OkIffCarried(sends: seq<SendEvent>, total: nat, sent: nat)
    requires sent <= total && (sent > 0 || (sends != [] && !sends[0].Full?))
    ensures Answered(sends, total, sent).0 == SentOk <==> Carried(sends, total - sent)
    decreases |sends|
  {
    if sent == total {
      assert CarriedBy(sends, 0, 0);
    } else if sends != [] && MovesOn(sends[0]) {
      OkIffCarried(sends[1..], total, sent + Now(sends[0], total - sent));
      CarriedOneMore(sends, total - sent);
    } else {
      NotCarried(sends, total - sent);
    }
  }

  lemma NotCarried(sends: seq<SendEvent>, left: nat)
    requires left > 0 && (sends == [] || !MovesOn(sends[0]))
    ensures !Carried(sends, left)
  {
    forall m: nat | m <= |sends| ensures !CarriedBy(sends, left, m) {
      if m > 0 {
        assert !MovesOn(sends[0]);
      }
    }
  }

  lemma CarriedOneMore(sends: seq<SendEvent>, left: nat)
    requires sends != [] && left > 0 && MovesOn(sends[0])
    ensures Carried(sends, left) <==> Carried(sends[1..], left - Now(sends[0], left))
  {
    var rest, now := sends[1..], Now(sends[0], left);
    var after := left - now;
    if m: nat :| m <= |sends| && CarriedBy(sends, left, m) {
      assert m > 0;
      assert forall i :: 0 <= i < m - 1 ==> rest[i] == sends[i + 1];
      assert TakenBy(rest, m - 1) >= after;
      assert CarriedBy(rest, after, m - 1);
    }
    if m: nat :| m <= |rest| && CarriedBy(rest, after, m) {
      assert forall i :: 1 <= i < m + 1 ==> sends[i] == rest[i - 1];
      assert TakenBy(sends, m + 1) >= left;
      assert CarriedBy(sends, left, m + 1);
    }
  }

  /** Full is answered exactly when the first write finds no room; OK exactly when writes that all move on, the first
      taking something, take all the bytes between them; otherwise the connection has failed. */
  lemma AnsweredWhen(sends: seq<SendEvent>, total: nat)
    requires total > 0
    ensures var rc := Answered(sends, total, 0).0;
      && (rc == SentFull <==> sends != [] && sends[0].Full?)
      && (rc == SentOk <==> sends != [] && sends[0].Took? && Carried(sends, total))
  {
    if sends == [] || !sends[0].Full? {
      NotFullLater(sends, total, 0);
    }
    if sends != [] && !sends[0].Full? {
      OkIffCarried(sends, total, 0);
      if sends[0].Failed? {
        NotCarried(sends, total);
      }
    }
  }

  lemma {:induction false} NotFullLater(sends: seq<SendEvent>, total: nat, sent: nat)
    requires sent <= total && (sent > 0 || sends == [] || !sends[0].Full?)
    ensures Answered(sends, total, sent).0 != SentFull
    decreases |sends|
  {
    if sent < total && sends != [] {
      var e := sends[0];
      if MovesOn(e) {
        NotFullLater(sends[1..], total, sent + Now(e, total - sent));
      }
    }
  }

  /** There is a peer for each listed path. */
  ghost predicate PathsListed(links: map<bytes, bool>, peers: seq<WinPeer>) {
    forall path :: path in links ==> exists p :: p in peers && p.path == path
  }

  lemma PathsWithout(links: map<bytes, bool>, peers: seq<WinPeer>, p: WinPeer, left: seq<WinPeer>)
    requires PathsListed(links, peers) && forall q :: q in left <==> q in peers && q != p
    ensures PathsListed(links - {p.path}, left)
  {
    forall path | path in links - {p.path} ensures exists q :: q in left && q.path == path {
      var q :| q in peers && q.path == path;
      assert q in left;
    }
  }

  /** Every slot leads to one of the peers, as the handles say. */
  ghost predicate SlotsLead(slots: seq<WinPeer?>, handles: seq<Option<bytes>>, peers: seq<WinPeer>) {
    && |handles| == |slots|
    && forall i :: 0 <= i < |slots| ==>
         if slots[i] == null then handles[i] == None
         else slots[i] in peers && handles[i] == Some(slots[i].path)
  }

  lemma SlotsMore(slots: seq<WinPeer?>, handles: seq<Option<bytes>>, peers: seq<WinPeer>, i: nat, p: WinPeer)
    requires SlotsLead(slots, handles, peers) && p in peers && i <= |slots|
    ensures |handles| == |slots|
    ensures i < |slots| ==> SlotsLead(slots[i := p], handles[i := Some(p.path)], peers)
    ensures SlotsLead(slots + [p], handles + [Some(p.path)], peers)
  {
  }

  /** Every peer counts its handles and is open as its link says; a path without a peer has no handle. */
  ghost predicate PeersCount(peers: seq<WinPeer>, handles: seq<Option<bytes>>, links: map<bytes, bool>)
    reads peers`refs, peers`open
  {
    && (forall p :: p in peers ==> p.refs == Count(handles, p.path) && p.path in links && links[p.path] == p.open)
    && PathsListed(links, peers)
    && (forall path :: path !in links ==> Count(handles, path) == 0)
  }

  /** The peer without handles gone, the others still count theirs. */
  lemma CountWithout(peers: seq<WinPeer>, handles: seq<Option<bytes>>, links: map<bytes, bool>, p: WinPeer,
                     left: seq<WinPeer>)
    requires PeersCount(peers, handles, links) && p in peers && p.refs == 0
    requires forall q :: q in left <==> q in peers && q != p
    requires forall q :: q in peers && q.path == p.path ==> q == p
    ensures PeersCount(left, handles, links - {p.path}) && p !in left && Count(handles, p.path) == 0
  {
    hide Count;
    PathsWithout(links, peers, p, left);
    hide PathsListed;
  }

  lemma SlotAt(slots: seq<WinPeer?>, handles: seq<Option<bytes>>, peers: seq<WinPeer>, k: nat)
    requires SlotsLead(slots, handles, peers) && k < |slots| && slots[k] != null
    ensures |handles| == |slots| && handles[k] == Some(slots[k].path)
  {
  }

  /** Closing the last handle to a path takes it off the list. */
  lemma CloseLast(t: Table, h: int)
    requires Live(t, h) && Count(t.handles[h - 1 := None], t.handles[h - 1].value) == 0
    ensures Handles.Close(t, h).handles == t.handles[h - 1 := None]
    ensures Handles.Close(t, h).links == t.links - {t.handles[h - 1].value}
  {
  }

  /** The last slot of a peer freed and the peer gone, every other slot still leads to a peer. */
  lemma SlotsWithout(slots: seq<WinPeer?>, handles: seq<Option<bytes>>, peers: seq<WinPeer>, k: nat, p: WinPeer,
                     left: seq<WinPeer>)
    requires SlotsLead(slots, handles, peers) && k < |slots| && slots[k] == p
    requires Some(p.path) !in handles[k := None]
    requires forall q :: q in left <==> q in peers && q != p
    ensures SlotsLead(slots[k := null], handles[k := None], left)
  {
    forall i | 0 <= i < |slots| && i != k && slots[i] != null ensures slots[i] in left {
      assert handles[k := None][i] == handles[i];
      assert handles[k := None][i] in handles[k := None];
    }
  }

  /** `peers` and `handle_slots`. `table` is their value, kept for the specification. */
  class HandleTable {
    var peers: seq<WinPeer>
    var slots: seq<WinPeer?>
    ghost var table: Table

    /** Every slot leads to a listed peer, as the table says. */
    ghost predicate SlotsMatch()
      reads this
    {
      SlotsLead(slots, table.handles, peers)
    }

    /** Every peer counts its handles, and there is one for each listed path. */
    ghost predicate PeersMatch()
      reads this, peers`refs, peers`open
    {
      PeersCount(peers, table.handles, table.links)
    }

    ghost predicate PeersDiffer()
      reads this
    {
      forall i, j :: 0 <= i < j < |peers| ==> peers[i] != peers[j] && peers[i].path != peers[j].path
    }

    ghost predicate Valid()
      reads this, peers`refs, peers`open
    {
      SlotsMatch() && PeersMatch() && PeersDiffer()
    }

    lemma SamePathSamePeer(p: WinPeer, q: WinPeer)
      requires PeersDiffer() && p in peers && q in peers && p.path == q.path
      ensures p == q
    {
      var a :| 0 <= a < |peers| && peers[a] == p;
      var b :| 0 <= b < |peers| && peers[b] == q;
    }

    constructor ()
      ensures Valid() && table == Table([], map[], [])
    {
      peers, slots, table := [], [], Table([], map[], []);
    }

    /** All live handles to one path share one connection. */
    lemma SharedConnection(i: nat, j: nat)
      requires Valid() && i < |slots| && j < |slots| && slots[i] != null && slots[j] != null
      ensures slots[i] == slots[j] <==> slots[i].path == slots[j].path
    {
      if slots[i].path == slots[j].path {
        var a :| 0 <= a < |peers| && peers[a] == slots[i];
        var b :| 0 <= b < |peers| && peers[b] == slots[j];
      }
    }

    /** `peer_get`. `reachable` says whether the connection can be made. */
    method PeerGet(path: bytes, reachable: bool, sends: seq<SendEvent>) returns (p: WinPeer)
      requires Valid()
      modifies this
      ensures Valid() && p in peers && p.path == path
      ensures table == Handles.PeerGet(old(table), path, reachable)
      ensures forall q :: q in peers ==> q in old(peers) || fresh(q)
    {
      for i := 0 to |peers|
        invariant forall k :: 0 <= k < i ==> peers[k].path != path
      {
        if peers[i].path == path {
          return peers[i];
        }
      }
      assert path !in table.links;
      p := new WinPeer(path, reachable, sends);
      peers := [p] + peers;
      table := Handles.PeerGet(table, path, reachable);
    }

    method FirstFree() returns (i: nat)
      requires SlotsMatch()
      ensures i == FreeSlot(table.handles)
    {
      i := 0;
      assert table.handles[0..] == table.handles;
      while i < |slots| && slots[i] != null
        invariant 0 <= i <= |slots|
        invariant FreeSlot(table.handles) == i + FreeSlot(table.handles[i..])
      {
        assert table.handles[i..][1..] == table.handles[i + 1..];
        i := i + 1;
      }
    }

    lemma OneMore(before: Table, path: bytes)
      ensures forall q ::
        Count(Handles.SlotNew(before, path).0.handles, q) == Count(before.handles, q) + (if q == path then 1 else 0)
    {
      forall q
        ensures Count(Handles.SlotNew(before, path).0.handles, q) == Count(before.handles, q) + (if q == path then 1 else 0)
      {
        CountSlotNew(before, path, q);
      }
    }

    lemma OnlyPeer(p: WinPeer)
      requires PeersDiffer() && p in peers
      ensures forall q :: q in peers && q.path == p.path ==> q == p
    {
      forall q | q in peers && q.path == p.path ensures q == p {
        SamePathSamePeer(p, q);
      }
    }

    /** `slot_new`: the lowest free slot, or one more. */
    method SlotNew(p: WinPeer) returns (id: nat)
      requires Valid() && p in peers
      modifies this, p`refs
      ensures Valid() && peers == old(peers)
      ensures (table, id as int) == Handles.SlotNew(old(table), p.path)
      ensures 1 <= id <= |slots| && slots[id - 1] == p
    {
      ghost var before := table;
      var i := FirstFree();
      hide Count, FreeSlot;
      OneMore(before, p.path);
      OnlyPeer(p);
      hide PeersDiffer, PathsListed;
      SlotsMore(slots, table.handles, peers, i, p);
      hide SlotsLead;
      table := Handles.SlotNew(table, p.path).0;
      slots := if i < |slots| then slots[i := p] else slots + [p];
      assert SlotsMatch();
      p.refs := p.refs + 1;
      assert PeersMatch();
      id := i + 1;
    }

    /** `channel_handle_adopt_path`. */
    method Adopt(path: bytes, reachable: bool, sends: seq<SendEvent>) returns (id: nat)
      requires Valid()
      modifies this, peers
      ensures forall q :: q in peers ==> q in old(peers) || fresh(q)
      ensures Valid() && (table, id as int) == Handles.Adopt(old(table), path, reachable)
    {
      var p := PeerGet(path, reachable, sends);
      id := SlotNew(p);
    }

    /** `channel_handle_dup`. */
    method Dup(h: int) returns (id: int)
      requires Valid()
      modifies this, peers
      ensures Valid() && (table, id) == Handles.Dup(old(table), h)
    {
      if h < 1 || h > |slots| || slots[h - 1] == null {
        return -1;
      }
      id := SlotNew(slots[h - 1]);
    }

    /** `channel_handle_close`. */
    method Close(h: int)
      requires Valid()
      modifies this, peers
      ensures Valid() && table == Handles.Close(old(table), h)
    {
      if h < 1 || h > |slots| || slots[h - 1] == null {
        return;
      }
      var p := slots[h - 1];
      ghost var left := table.handles[h - 1 := None];
      OneLess(table.handles, h - 1, p.path);
      OnlyPeer(p);
      hide Count;
      p.refs := p.refs - 1;
      if p.refs > 0 {
        ForgetSlot(h, p);
      } else {
        Unlist(h, p);
      }
    }

    /** The slot is freed while others lead to the same peer. */
    method ForgetSlot(h: nat, p: WinPeer)
      requires p in peers && 1 <= h <= |slots| && slots[h - 1] == p && p.refs > 0
      requires SlotsMatch() && PeersDiffer() && PeersCount(peers, table.handles[h - 1 := None], table.links)
      modifies this
      ensures Valid() && table == Handles.Close(old(table), h) && peers == old(peers)
    {
      ghost var left := table.(handles := table.handles[h - 1 := None]);
      assert p.refs == Count(left.handles, p.path);
      hide Count;
      assert slots[h - 1] != null && table.handles[h - 1] == Some(p.path);
      assert Handles.Close(table, h) == left;
      slots := slots[h - 1 := null];
      table := left;
      assert SlotsMatch();
      assert PeersMatch();
      assert PeersDiffer();
    }

    lemma OneLess(hs: seq<Option<bytes>>, i: nat, path: bytes)
      requires i < |hs| && hs[i] == Some(path)
      ensures Count(hs, path) > 0
      ensures forall q :: Count(hs[i := None], q) == Count(hs, q) - (if q == path then 1 else 0)
    {
      CountOfMember(hs, i);
      forall q ensures Count(hs[i := None], q) == Count(hs, q) - (if q == path then 1 else 0) {
        CountUpdate(hs, i, None, q);
      }
    }

    method IndexOf(p: WinPeer) returns (i: nat)
      requires p in peers
      ensures i < |peers| && peers[i] == p
    {
      i := 0;
      while i < |peers| && peers[i] != p
        invariant 0 <= i <= |peers| && p !in peers[..i]
      {
        assert peers[..i + 1] == peers[..i] + [peers[i]];
        i := i + 1;
      }
      assert peers[..|peers|] == peers;
    }

    /** `handle_slots[handle - 1] = NULL` and the end of `peer_release`: the peer leaves the list and its
        connection is closed. */
    method Unlist(h: nat, p: WinPeer)
      requires p in peers && 1 <= h <= |slots| && slots[h - 1] == p
      requires SlotsMatch() && PeersDiffer()
      requires PeersCount(peers, table.handles[h - 1 := None], table.links)
      requires p.refs == 0
      modifies this, p`open
      ensures Valid() && table == Handles.Close(old(table), h)
    {
      ghost var was, before, oldSlots := table, peers, slots;
      SlotAt(slots, was.handles, peers, h - 1);
      hide Count, SlotsLead, PathsListed, PeersDiffer, PeersCount;
      RemoveUncounted(p, was.handles[h - 1 := None]);
      CloseLast(was, h);
      SlotsWithout(oldSlots, was.handles, before, h - 1, p, peers);
      hide Handles.Close;
      slots := slots[h - 1 := null];
      table := Handles.Close(table, h);
      assert SlotsMatch() && PeersMatch();
      p.open := false;
      assert PeersMatch();
    }

    method RemoveUncounted(p: WinPeer, ghost handles: seq<Option<bytes>>)
      requires p in peers && p.refs == 0 && PeersDiffer() && PeersCount(peers, handles, table.links)
      modifies this`peers
      ensures PeersDiffer() && PeersCount(peers, handles, table.links - {p.path})
      ensures Count(handles, p.path) == 0 && Some(p.path) !in handles
      ensures forall q :: q in peers <==> q in old(peers) && q != p
    {
      ghost var before := peers;
      OnlyPeer(p);
      hide Count, PathsListed, PeersDiffer, PeersCount;
      RemovePeer(p);
      CountWithout(before, handles, table.links, p, peers);
      NoneLeft(handles, p.path);
    }

    method RemovePeer(p: WinPeer)
      requires p in peers && PeersDiffer()
      modifies this`peers
      ensures PeersDiffer() && forall q :: q in peers <==> q in old(peers) && q != p
    {
      var i := IndexOf(p);
      RemoveAt(peers, i);
      peers := peers[..i] + peers[i + 1..];
    }

    /** The handles of a received frame: each path is adopted, as the C string it is. */
    method AdoptAll(paths: seq<bytes>, reachable: seq<bool>, sends: seq<SendEvent>) returns (ids: seq<int>)
      requires Valid() && |reachable| == |paths|
      modifies this, peers
      ensures Valid() && (table, ids) == AdoptFirst(old(table), paths, reachable, |paths|)
      ensures forall p :: p in peers ==> p in old(peers) || fresh(p)
    {
      ids := [];
      hide Handles.Adopt;
      var i := 0;
      while i < |paths|
        invariant 0 <= i <= |paths| && Valid()
        invariant forall p :: p in peers ==> p in old(peers) || fresh(p)
        invariant (table, ids) == AdoptFirst(old(table), paths, reachable, i)
      {
        assert forall p: object :: p in peers ==> p in old(peers) || fresh(p);
        var id := Adopt(CString(paths[i]), reachable[i], sends);
        ids := ids + [id];
        i := i + 1;
      }
    }

    /** The handle part of the frame: each handle's path, with its length. */
    method HandleBytes(fds: seq<int>) returns (ok: bool, tail: bytes)
      requires Valid()
      ensures ok <==> forall i :: 0 <= i < |fds| ==> Live(table, fds[i])
      ensures ok ==> tail == EncodePaths(PathsOf(table, fds))
    {
      hide PeersMatch, PeersDiffer, EncodePaths, PutU32;
      ghost var paths := PathsOf(table, fds);
      tail := [];
      assert paths[..0] == [] && EncodePaths([]) == [] by {
        EncodeNone();
      }
      for i := 0 to |fds|
        invariant forall k :: 0 <= k < i ==> Live(table, fds[k])
        invariant tail == EncodePaths(paths[..i])
      {
        var fd := fds[i];
        if fd < 1 || fd > |slots| || slots[fd - 1] == null {
          return false, [];
        }
        var path := slots[fd - 1].path;
        assert paths[..i + 1] == paths[..i] + [path];
        EncodePathsAppend(paths[..i], path);
        tail := tail + (PutU32(|path|) + path);
      }
      assert paths[..|fds|] == paths;
      ok := true;
    }

    /** `channel_send_fds`: the frame holds the payload and the path of each handle sent along. */
    method Send(h: int, payload: bytes, fds: seq<int>) returns (rc: SendResult)
      requires Valid()
      modifies (if Live(table, h) then {slots[h - 1]} else {})`sends, (if Live(table, h) then {slots[h - 1]} else {})`onWire
      ensures Valid() && table == old(table) && slots == old(slots)
      ensures rc == TooBig <==> |payload| > MAX_MESSAGE || |fds| > MAX_HANDLES
      ensures rc == Refused <==>
        rc != TooBig && (!CanSend(table, h, fds) || old(slots[h - 1].hungUp) || !old(slots[h - 1].open))
      ensures !rc.Sent? && Live(table, h) ==> slots[h - 1].onWire == old(slots[h - 1].onWire)
      ensures rc.Sent? ==> CanSend(table, h, fds)
      ensures rc.Sent? ==>
        var size := |Encode(FrameOf(table, payload, fds))|;
        (rc.outcome, slots[h - 1].sends) == Answered(old(slots[h - 1].sends), size, 0)
      ensures rc.Sent? ==>
        Wrote(rc.outcome, Encode(FrameOf(table, payload, fds)), old(slots[h - 1].onWire), slots[h - 1].onWire)
    {
      if |payload| > MAX_MESSAGE || |fds| > MAX_HANDLES {
        return TooBig;
      }
      if h < 1 || h > |slots| || slots[h - 1] == null {
        return Refused;
      }
      var target := slots[h - 1];
      if target.hungUp || !target.open {
        return Refused;
      }
      var ok, tail := HandleBytes(fds);
      if !ok {
        return Refused;
      }
      var frame := PutU32(|payload|) + PutU32(|fds|) + payload + tail;
      assert frame == Encode(FrameOf(table, payload, fds));
      hide Encode, Count, PathsOf;
      var outcome := target.SendBytes(frame);
      return Sent(outcome);
    }
  }

  datatype SendResult = TooBig | Refused | Sent(outcome: SendOutcome)

  predicate CanSend(t: Table, h: int, fds: seq<int>) {
    Live(t, h) && forall i :: 0 <= i < |fds| ==> Live(t, fds[i])
  }

  function PathsOf(t: Table, fds: seq<int>): seq<bytes> {
    seq(|fds|, i requires 0 <= i < |fds| => if Live(t, fds[i]) then t.handles[fds[i] - 1].value else [])
  }

  function FrameOf(t: Table, payload: bytes, fds: seq<int>): Frame {
    Frame(payload, PathsOf(t, fds))
  }

  lemma EncodeNone()
    ensures EncodePaths([]) == []
  {
  }

  lemma {:induction false} EncodePathsAppend(paths: seq<bytes>, p: bytes)
    ensures EncodePaths(paths + [p]) == EncodePaths(paths) + (PutU32(|p|) + p)
    decreases |paths|
  {
    if paths == [] {
      assert (paths + [p])[1..] == [];
    } else {
      assert (paths + [p])[1..] == paths[1..] + [p];
      EncodePathsAppend(paths[1..], p);
    }
  }

  /** The first `n` paths of a received frame, adopted in order. */
  function AdoptFirst(t: Table, paths: seq<bytes>, reachable: seq<bool>, n: nat): (Table, seq<int>)
    requires n <= |paths| == |reachable|
  {
    if n == 0 then (t, [])
    else
      var r := AdoptFirst(t, paths, reachable, n - 1);
      var a := Handles.Adopt(r.0, CString(paths[n - 1]), reachable[n - 1]);
      (a.0, r.1 + [a.1])
  }

  predicate Leads(t: Table, h: int, path: bytes) { Live(t, h) && t.handles[h - 1] == Some(path) }

  /** No handle is disturbed. */
  ghost predicate Kept(t: Table, t': Table) {
    forall g :: Live(t, g) ==> Live(t', g) && t'.handles[g - 1] == t.handles[g - 1]
  }

  lemma AdoptLeads(t: Table, path: bytes, reachable: bool)
    ensures var (t', h) := Handles.Adopt(t, path, reachable);
      Leads(t', h, path) && !Live(t, h) && Kept(t, t')
  {
  }

  /** Each number returned is a new handle that leads to its path, up to the first NUL, and no other handle is
      disturbed. */
  lemma {:induction false} AdoptedLead(t: Table, paths: seq<bytes>, reachable: seq<bool>, n: nat)
    requires n <= |paths| == |reachable|
    ensures var (t', ids) := AdoptFirst(t, paths, reachable, n);
      && |ids| == n && Kept(t, t')
      && (forall i :: 0 <= i < n ==> Leads(t', ids[i], CString(paths[i])) && !Live(t, ids[i]))
      && (forall i, j :: 0 <= i < j < n ==> ids[i] != ids[j])
  {
    hide Handles.Adopt, CString, Live;
    if n > 0 {
      AdoptedLead(t, paths, reachable, n - 1);
      var r := AdoptFirst(t, paths, reachable, n - 1);
      var path := CString(paths[n - 1]);
      AdoptLeads(r.0, path, reachable[n - 1]);
      var a := Handles.Adopt(r.0, path, reachable[n - 1]);
      forall i | 0 <= i < n - 1 ensures Leads(a.0, r.1[i], CString(paths[i])) && r.1[i] != a.1 {
        StillLeads(r.0, a.0, r.1[i], CString(paths[i]), a.1);
      }
      KeptOn(t, r.0, a.0, a.1);
    } else {
      KeptOn(t, t, t, 0);
    }
  }

  lemma StillLeads(t: Table, t': Table, h: int, path: bytes, other: int)
    requires Leads(t, h, path) && Kept(t, t') && !Live(t, other)
    ensures Leads(t', h, path) && h != other
  {
  }

  lemma KeptOn(t: Table, t': Table, t'': Table, h: int)
    requires (Kept(t, t') || t == t') && (Kept(t', t'') || t' == t'')
    ensures Kept(t, t'') && (!Live(t', h) ==> !Live(t, h))
  {
  }

  lemma NoNulIsWhole(p: bytes)
    requires NoNul(p)
    ensures CString(p) == p
  {
  }

  /** Handles survive the way: a frame sent with live handles is read back, and the handles that the receiver gets
      for it lead, in order, to the paths that the sender's led to. */
  lemma HandlesArrive(t: Table, payload: bytes, fds: seq<int>, rest: bytes, there: Table, reachable: seq<bool>)
    requires forall i :: 0 <= i < |fds| ==> Live(t, fds[i]) && NoNul(t.handles[fds[i] - 1].value)
    requires Deliverable(FrameOf(t, payload, fds)) && |reachable| == |fds|
    ensures var got := TakeFrame(Encode(FrameOf(t, payload, fds)) + rest);
      && got.Taken? && got.frame.payload == payload && |got.frame.paths| == |fds|
      && var (there', ids) := AdoptFirst(there, got.frame.paths, reachable, |fds|);
         |ids| == |fds| && forall i :: 0 <= i < |fds| ==> Leads(there', ids[i], t.handles[fds[i] - 1].value)
  {
    var f := FrameOf(t, payload, fds);
    TakeOfEncoded(f, rest);
    AdoptedLead(there, f.paths, reachable, |fds|);
    hide TakeFrame, Encode, AdoptFirst, CString;
    forall i | 0 <= i < |fds| ensures CString(f.paths[i]) == t.handles[fds[i] - 1].value {
      NoNulIsWhole(f.paths[i]);
    }
  }

  lemma {:induction false} NoneLeft(hs: seq<Option<bytes>>, path: bytes)
    requires Count(hs, path) == 0
    ensures Some(path) !in hs
    decreases |hs|
  {
    if hs != [] {
      NoneLeft(hs[1..], path);
      assert hs == [hs[0]] + hs[1..];
    }
  }

  /** A list of distinct things without the one at `i`. */
  lemma RemoveAt(ps: seq<WinPeer>, i: nat)
    requires i < |ps| && forall a, b :: 0 <= a < b < |ps| ==> ps[a] != ps[b]
    ensures var ps' := ps[..i] + ps[i + 1..];
      forall q :: q in ps' <==> q in ps && q != ps[i]
  {
    var ps' := ps[..i] + ps[i + 1..];
    assert forall k :: 0 <= k < |ps'| ==> ps'[k] == ps[if k < i then k else k + 1];
    forall q | q in ps && q != ps[i]
      ensures q in ps'
    {
      var k :| 0 <= k < |ps| && ps[k] == q;
      assert ps'[if k < i then k else k - 1] == q;
    }
  }
}
