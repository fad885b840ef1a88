/** Handles: the numbers a program holds, the connections behind them, and sending on one. */
module Handles {
  import opened Wrappers
  import opened Bytes

  // ----- the table as a value -----

  /** What the table does to the network: a connection made, a connection shut down and closed. */
  datatype NetCall = Opened(path: bytes) | Closed(path: bytes)

  /** `handles[i]` is the path behind handle i + 1. `links` has an entry for each listed peer, true when
      its connection could be made. */
  datatype Table = Table(handles: seq<Option<bytes>>, links: map<bytes, bool>, calls: seq<NetCall>)

  predicate Live(t: Table, h: int) {
    1 <= h <= |t.handles| && t.handles[h - 1].Some?
  }

  /** How many handles lead to `path`. */
  function Count(hs: seq<Option<bytes>>, path: bytes): nat {
    if hs == [] then 0
    else (if hs[0] == Some(path) then 1 else 0) + Count(hs[1..], path)
  }

  /** `slot_new`: the lowest free slot, or a new one. */
  function FreeSlot(hs: seq<Option<bytes>>): (i: nat)
    ensures i <= |hs| && (i < |hs| ==> hs[i].None?)
    ensures forall k :: 0 <= k < i ==> hs[k].Some?
  {
    if hs == [] || hs[0].None? then 0 else 1 + FreeSlot(hs[1..])
  }

  function SlotNew(t: Table, path: bytes): (Table, int) {
    var i := FreeSlot(t.handles);
    (t.(handles := if i < |t.handles| then t.handles[i := Some(path)] else t.handles + [Some(path)]), i + 1)
  }

  /** `peer_get`: a listed peer is shared; otherwise one is listed, connected if it can be reached. */
  function PeerGet(t: Table, path: bytes, reachable: bool): Table {
    if path in t.links then t
    else t.(links := t.links[path := reachable],
            calls := if reachable then t.calls + [Opened(path)] else t.calls)
  }

  /** `channel_handle_adopt_path`. */
  function Adopt(t: Table, path: bytes, reachable: bool): (Table, int) {
    SlotNew(PeerGet(t, path, reachable), path)
  }

  /** `channel_handle_dup`. */
  function Dup(t: Table, h: int): (Table, int) {
    if Live(t, h) then SlotNew(t, t.handles[h - 1].value) else (t, -1)
  }

  /** `channel_handle_close`, with `peer_release`. */
  function Close(t: Table, h: int): Table {
    if !Live(t, h) then t
    else
      var path := t.handles[h - 1].value;
      var left := t.(handles := t.handles[h - 1 := None]);
      if Count(left.handles, path) > 0 then left
      else
        left.(links := left.links - {path},
              calls := if path in t.links && t.links[path] then t.calls + [Closed(path)] else t.calls)
  }

  datatype Op = DoAdopt(path: bytes, reachable: bool) | DoDup(h: int) | DoClose(h: int)

  function Do(t: Table, op: Op): Table {
    match op
    case DoAdopt(p, r) => Adopt(t, p, r).0
    case DoDup(h) => Dup(t, h).0
    case DoClose(h) => Close(t, h)
  }

  function DoAll(t: Table, ops: seq<Op>): Table
    decreases |ops|
  {
    if ops == [] then t else DoAll(Do(t, ops[0]), ops[1..])
  }

  /** Reading the network calls from the first: the connections open, or nothing if a connection was
      opened twice at once or closed when it was not open. */
  function OpenAfter(calls: seq<NetCall>): Option<set<bytes>>
    decreases |calls|
  {
    if calls == [] then Some({})
    else
      var last := calls[|calls| - 1];
      match OpenAfter(calls[..|calls| - 1])
      case None => None
      case Some(open) =>
        match last
        case Opened(p) => if p in open then None else Some(open + {p})
        case Closed(p) => if p in open then Some(open - {p}) else None
  }

  /** The table and the network agree: exactly the paths with a live handle are listed, and exactly the
      reachable ones among them have a connection, one each. */
  ghost predicate Agrees(t: Table) {
    && (forall p :: p in t.links <==> Count(t.handles, p) > 0)
    && OpenAfter(t.calls) == Some(set p | p in t.links && t.links[p])
  }

  lemma {:induction false} CountUpdate(hs: seq<Option<bytes>>, i: nat, v: Option<bytes>, p: bytes)
    requires i < |hs|
    ensures Count(hs[i := v], p) ==
      Count(hs, p) - (if hs[i] == Some(p) then 1 else 0) + (if v == Some(p) then 1 else 0)
    decreases |hs|
  {
    if i == 0 {
      assert hs[0 := v][1..] == hs[1..];
    } else {
      assert hs[i := v][1..] == hs[1..][i - 1 := v];
      CountUpdate(hs[1..], i - 1, v, p);
    }
  }

  lemma {:induction false} CountAppend(hs: seq<Option<bytes>>, v: Option<bytes>, p: bytes)
    ensures Count(hs + [v], p) == Count(hs, p) + (if v == Some(p) then 1 else 0)
    decreases |hs|
  {
    if hs == [] {
      assert (hs + [v])[1..] == [];
    } else {
      assert (hs + [v])[1..] == hs[1..] + [v];
      CountAppend(hs[1..], v, p);
    }
  }

  lemma CountSlotNew(t: Table, path: bytes, p: bytes)
    ensures Count(SlotNew(t, path).0.handles, p) == Count(t.handles, p) + (if p == path then 1 else 0)
  {
    var i := FreeSlot(t.handles);
    if i < |t.handles| {
      CountUpdate(t.handles, i, Some(path), p);
    } else {
      CountAppend(t.handles, Some(path), p);
    }
  }

  lemma OneMoreCall(calls: seq<NetCall>, c: NetCall, open: set<bytes>)
    requires OpenAfter(calls) == Some(open)
    requires c.Opened? <==> c.path !in open
    ensures OpenAfter(calls + [c]) == Some(if c.Opened? then open + {c.path} else open - {c.path})
  {
    assert (calls + [c])[..|calls|] == calls;
  }

  lemma {:induction false} CountOfMember(hs: seq<Option<bytes>>, i: nat)
    requires i < |hs| && hs[i].Some?
    ensures Count(hs, hs[i].value) > 0
    decreases |hs|
  {
    if i > 0 {
      CountOfMember(hs[1..], i - 1);
    }
  }

  lemma AdoptAgrees(t: Table, path: bytes, reachable: bool)
    requires Agrees(t)
    ensures Agrees(Adopt(t, path, reachable).0)
  {
    var t1 := PeerGet(t, path, reachable);
    var t2 := SlotNew(t1, path).0;
    forall p
      ensures p in t2.links <==> Count(t2.handles, p) > 0
    {
      CountSlotNew(t1, path, p);
    }
    var open := set p | p in t.links && t.links[p];
    var open' := set p | p in t2.links && t2.links[p];
    if path in t.links || !reachable {
      assert open' == open;
    } else {
      OneMoreCall(t.calls, Opened(path), open);
      assert open' == open + {path};
    }
  }

  lemma DupAgrees(t: Table, h: int)
    requires Agrees(t)
    ensures Agrees(Dup(t, h).0)
  {
    if Live(t, h) {
      var path := t.handles[h - 1].value;
      CountOfMember(t.handles, h - 1);
      forall p
        ensures p in t.links <==> Count(Dup(t, h).0.handles, p) > 0
      {
        CountSlotNew(t, path, p);
      }
    }
  }

  lemma CloseAgrees(t: Table, h: int)
    requires Agrees(t)
    ensures Agrees(Close(t, h))
  {
    if Live(t, h) {
      var path := t.handles[h - 1].value;
      var t' := Close(t, h);
      CountOfMember(t.handles, h - 1);
      forall p
        ensures Count(t'.handles, p) == Count(t.handles, p) - (if p == path then 1 else 0)
      {
        CountUpdate(t.handles, h - 1, None, p);
      }
      var open := set p | p in t.links && t.links[p];
      var open' := set p | p in t'.links && t'.links[p];
      if path in t'.links || !t.links[path] {
        assert open' == open;
      } else {
        OneMoreCall(t.calls, Closed(path), open);
        assert open' == open - {path};
      }
    }
  }

  /** Over every sequence of adopt, dup and close: a path is listed exactly while some handle leads to
      it, a connection is opened once for all handles to a path and closed exactly with the last one. */
  lemma {:induction false} TableAlwaysAgrees(t: Table, ops: seq<Op>)
    requires Agrees(t)
    ensures Agrees(DoAll(t, ops))
    decreases |ops|
  {
    if ops != [] {
      match ops[0] {
        case DoAdopt(p, r) => AdoptAgrees(t, p, r);
        case DoDup(h) => DupAgrees(t, h);
        case DoClose(h) => CloseAgrees(t, h);
      }
      TableAlwaysAgrees(Do(t, ops[0]), ops[1..]);
    }
  }

  lemma EmptyAgrees()
    ensures Agrees(Table([], map[], []))
  {
    var links: map<bytes, bool> := map[];
    assert (set p | p in links && links[p]) == {};
  }

  /** Handle `d` of `t'` is new, leads to `path` and disturbs no other; closing it restores `t`, perhaps with one
      more free slot, without a word to the network. */
  ghost predicate Undone(t: Table, t': Table, d: int, path: bytes) {
    && !Live(t, d) && Live(t', d) && t'.handles[d - 1] == Some(path)
    && (forall g :: Live(t, g) ==> Live(t', g) && t'.handles[g - 1] == t.handles[g - 1])
    && var back := Close(t', d);
       back.links == t.links && back.calls == t.calls &&
       (back.handles == t.handles || back.handles == t.handles + [None])
  }

  /** Closing undoes one more handle to a path in use. */
  lemma CloseUndoesNew(t: Table, path: bytes)
    requires Agrees(t) && path in t.links
    ensures Undone(t, SlotNew(t, path).0, SlotNew(t, path).1, path)
  {
    var i := FreeSlot(t.handles);
    var t' := SlotNew(t, path).0;
    CountUpdate(t'.handles, i, None, path);
    CountSlotNew(t, path, path);
    if i < |t.handles| {
      assert t'.handles[i := None] == t.handles;
    } else {
      assert t'.handles[i := None] == t.handles + [None];
    }
  }

  /** A dup leads where its original does, and closing it undoes it. */
  lemma CloseUndoesDup(t: Table, h: int)
    requires Agrees(t) && Live(t, h)
    ensures Undone(t, Dup(t, h).0, Dup(t, h).1, t.handles[h - 1].value)
  {
    CountOfMember(t.handles, h - 1);
    CloseUndoesNew(t, t.handles[h - 1].value);
  }

  /** Closing undoes the adoption of a path already in use; of one that is not, it closes the connection made, and
      the path is no longer listed. */
  lemma CloseUndoesAdopt(t: Table, path: bytes, reachable: bool)
    requires Agrees(t)
    ensures path in t.links ==> Undone(t, Adopt(t, path, reachable).0, Adopt(t, path, reachable).1, path)
    ensures path !in t.links ==>
      var back := Close(Adopt(t, path, reachable).0, Adopt(t, path, reachable).1);
      && back.links == t.links
      && back.calls == t.calls + (if reachable then [Opened(path), Closed(path)] else [])
      && (back.handles == t.handles || back.handles == t.handles + [None])
  {
    if path in t.links {
      CloseUndoesNew(t, path);
    } else {
      var t1 := PeerGet(t, path, reachable);
      var i, t2 := FreeSlot(t.handles), SlotNew(t1, path).0;
      CountUpdate(t2.handles, i, None, path);
      CountSlotNew(t1, path, path);
      assert t2.handles[i := None] == if i < |t.handles| then t.handles else t.handles + [None];
      assert t1.links - {path} == t.links;
    }
  }
}
