/** The wire format of src/actor.c's Windows half: what a sender puts on a stream, and what
    `conn_take_frame` takes off the front of a connection's buffer. */
module Frames {
  import opened Bytes

  const MAX_MESSAGE := 4 * 1024 * 1024
  const MAX_HANDLES := 32
  const MAX_PATH := 4096

  /** The longest frame a receiver accepts. */
  const MAX_FRAME := 8 + MAX_MESSAGE + MAX_HANDLES * (4 + MAX_PATH)

  datatype Frame = Frame(payload: bytes, paths: seq<bytes>)

  /** What `channel_send_fds` is willing to put on the wire. */
  predicate Sendable(f: Frame) {
    && |f.payload| <= MAX_MESSAGE
    && |f.paths| <= MAX_HANDLES
    && forall i :: 0 <= i < |f.paths| ==> |f.paths[i]| < U32_LIMIT
  }

  predicate GoodPath(p: bytes) {
    1 <= |p| <= MAX_PATH
  }

  /** What a receiver will also take: the sender never checks the length of a path. */
  predicate Deliverable(f: Frame) {
    && |f.payload| <= MAX_MESSAGE
    && |f.paths| <= MAX_HANDLES
    && forall i :: 0 <= i < |f.paths| ==> GoodPath(f.paths[i])
  }

  function EncodePaths(paths: seq<bytes>): bytes {
    if paths == [] then [] else PutU32(|paths[0]|) + paths[0] + EncodePaths(paths[1..])
  }

  /** The frame buffer that `channel_send_fds` fills. */
  function Encode(f: Frame): bytes {
    PutU32(|f.payload|) + PutU32(|f.paths|) + f.payload + EncodePaths(f.paths)
  }

  function EncodeAll(fs: seq<Frame>): bytes {
    if fs == [] then [] else Encode(fs[0]) + EncodeAll(fs[1..])
  }

  // ----- taking a frame off a buffer -----

  datatype Scan = Short | BadLength | End(at: nat)

  /** The first handle loop of `conn_take_frame`: where the last path ends, reading only lengths. */
  function ScanPaths(buf: bytes, at: nat, n: nat): (r: Scan)
    ensures r.End? ==> at <= r.at <= |buf|
    decreases n
  {
    if n == 0 then if |buf| < at then Short else End(at)
    else if |buf| < at + 4 then Short
    else
      var pl := GetU32(buf, at);
      if pl == 0 || pl > MAX_PATH then BadLength else ScanPaths(buf, at + 4 + pl, n - 1)
  }

  /** The second handle loop: the paths themselves. */
  function PathsAt(buf: bytes, at: nat, n: nat): (paths: seq<bytes>)
    requires ScanPaths(buf, at, n).End?
    ensures |paths| == n
    decreases n
  {
    if n == 0 then []
    else
      var pl := GetU32(buf, at);
      [buf[at + 4..at + 4 + pl]] + PathsAt(buf, at + 4 + pl, n - 1)
  }

  datatype Take = NeedMore | Bad | Taken(frame: Frame, size: nat)

  /** `conn_take_frame` on a buffer holding exactly `buf`. */
  function TakeFrame(buf: bytes): (r: Take)
    ensures r.Taken? ==> 8 <= r.size <= |buf|
  {
    if |buf| < 8 then NeedMore
    else
      var plen := GetU32(buf, 0);
      var nh := GetU32(buf, 4);
      if plen > MAX_MESSAGE || nh > MAX_HANDLES then Bad
      else
        match ScanPaths(buf, 8 + plen, nh)
        case Short => NeedMore
        case BadLength => Bad
        case End(at) => Taken(Frame(buf[8..8 + plen], PathsAt(buf, 8 + plen, nh)), at)
  }

  lemma ScanOnePath(buf: bytes, at: nat, n: nat, p: bytes)
    requires n > 0 && |p| < U32_LIMIT && at + 4 + |p| <= |buf|
    requires buf[at..at + 4] == PutU32(|p|) && buf[at + 4..at + 4 + |p|] == p
    ensures if GoodPath(p)
      then ScanPaths(buf, at, n) == ScanPaths(buf, at + 4 + |p|, n - 1) &&
           (ScanPaths(buf, at, n).End? ==>
             PathsAt(buf, at, n) == [p] + PathsAt(buf, at + 4 + |p|, n - 1))
      else ScanPaths(buf, at, n) == BadLength
  {
    GetPutU32(|p|, buf, at);
  }

  lemma FirstPathAt(buf: bytes, at: nat, paths: seq<bytes>)
    requires paths != [] && at <= |buf| && EncodePaths(paths) <= buf[at..]
    ensures var p := paths[0];
      var next := at + 4 + |p|;
      && next <= |buf|
      && buf[at..at + 4] == PutU32(|p|)
      && buf[at + 4..next] == p
      && EncodePaths(paths[1..]) <= buf[next..]
      && |EncodePaths(paths)| == 4 + |p| + |EncodePaths(paths[1..])|
  {
    var p := paths[0];
    var head, rest := PutU32(|p|) + p, EncodePaths(paths[1..]);
    assert EncodePaths(paths) == head + rest;
    assert buf[at..][..|head| + |rest|] == head + rest;
    assert buf[at..at + |head|] == head;
    assert buf[at + |head|..at + |head| + |rest|] == rest;
    assert head[..4] == PutU32(|p|) && head[4..] == p;
    assert buf[at..at + 4] == head[..4];
    assert buf[at + 4..at + |head|] == head[4..];
  }

  lemma {:induction false} ScanOfEncoded(buf: bytes, at: nat, paths: seq<bytes>)
    requires forall i :: 0 <= i < |paths| ==> GoodPath(paths[i])
    requires at <= |buf| && EncodePaths(paths) <= buf[at..]
    ensures ScanPaths(buf, at, |paths|) == End(at + |EncodePaths(paths)|)
    ensures PathsAt(buf, at, |paths|) == paths
    decreases |paths|
  {
    if paths == [] {
    } else {
      var p := paths[0];
      FirstPathAt(buf, at, paths);
      ScanOfEncoded(buf, at + 4 + |p|, paths[1..]);
      ScanOnePath(buf, at, |paths|, p);
      assert [p] + paths[1..] == paths;
    }
  }

  lemma {:induction false} EncodedOfScan(buf: bytes, at: nat, n: nat)
    requires ScanPaths(buf, at, n).End?
    ensures forall i :: 0 <= i < n ==> GoodPath(PathsAt(buf, at, n)[i])
    ensures EncodePaths(PathsAt(buf, at, n)) == buf[at..ScanPaths(buf, at, n).at]
    decreases n
  {
    if n == 0 {
    } else {
      var pl := GetU32(buf, at);
      var next := at + 4 + pl;
      var end := ScanPaths(buf, at, n).at;
      EncodedOfScan(buf, next, n - 1);
      PutGetU32(buf, at);
      var paths := PathsAt(buf, at, n);
      assert paths[1..] == PathsAt(buf, next, n - 1);
      assert buf[at..end] == buf[at..at + 4] + buf[at + 4..next] + buf[next..end];
    }
  }

  lemma {:induction false} ScanExtends(buf: bytes, more: bytes, at: nat, n: nat)
    requires !ScanPaths(buf, at, n).Short?
    ensures ScanPaths(buf + more, at, n) == ScanPaths(buf, at, n)
    ensures ScanPaths(buf, at, n).End? ==> PathsAt(buf + more, at, n) == PathsAt(buf, at, n)
    decreases n
  {
    if n == 0 {
    } else {
      assert GetU32(buf + more, at) == GetU32(buf, at);
      var pl := GetU32(buf, at);
      if pl == 0 || pl > MAX_PATH {
      } else {
        var next := at + 4 + pl;
        ScanExtends(buf, more, next, n - 1);
        if ScanPaths(buf, at, n).End? {
          assert (buf + more)[at + 4..next] == buf[at + 4..next];
        }
      }
    }
  }

  lemma {:induction false} ShortScanIsBounded(buf: bytes, at: nat, n: nat)
    requires ScanPaths(buf, at, n).Short?
    ensures |buf| < at + n * (4 + MAX_PATH) || (n == 0 && |buf| < at)
    decreases n
  {
    if n == 0 || |buf| < at + 4 {
    } else {
      var pl := GetU32(buf, at);
      ShortScanIsBounded(buf, at + 4 + pl, n - 1);
    }
  }

  /** A frame that has arrived, or a stream that has gone bad, stays so whatever follows it. */
  lemma TakeExtends(buf: bytes, more: bytes)
    requires TakeFrame(buf) != NeedMore
    ensures TakeFrame(buf + more) == TakeFrame(buf)
  {
    assert GetU32(buf + more, 0) == GetU32(buf, 0) && GetU32(buf + more, 4) == GetU32(buf, 4);
    var plen, nh := GetU32(buf, 0), GetU32(buf, 4);
    if plen <= MAX_MESSAGE && nh <= MAX_HANDLES {
      ScanExtends(buf, more, 8 + plen, nh);
      if ScanPaths(buf, 8 + plen, nh).End? {
        TakenStartsAfterPayload(buf, 8 + plen, nh);
        assert (buf + more)[8..8 + plen] == buf[8..8 + plen];
      }
    }
  }

  lemma TakenStartsAfterPayload(buf: bytes, at: nat, n: nat)
    requires ScanPaths(buf, at, n).End?
    ensures at <= |buf|
  {
  }

  /** A buffer that is still waiting is always shorter than the longest frame. */
  lemma WaitingIsBounded(buf: bytes)
    requires TakeFrame(buf) == NeedMore
    ensures |buf| < MAX_FRAME
  {
    if |buf| >= 8 {
      var plen, nh := GetU32(buf, 0), GetU32(buf, 4);
      ShortScanIsBounded(buf, 8 + plen, nh);
    }
  }

  lemma HeaderOfEncoded(f: Frame, more: bytes)
    requires Sendable(f)
    ensures var buf := Encode(f) + more;
      && |buf| >= 8 + |f.payload|
      && GetU32(buf, 0) == |f.payload|
      && GetU32(buf, 4) == |f.paths|
      && buf[8..8 + |f.payload|] == f.payload
      && EncodePaths(f.paths) <= buf[8 + |f.payload|..]
      && |Encode(f)| == 8 + |f.payload| + |EncodePaths(f.paths)|
  {
    var buf := Encode(f) + more;
    assert buf[0..4] == PutU32(|f.payload|) && buf[4..8] == PutU32(|f.paths|);
    GetPutU32(|f.payload|, buf, 0);
    GetPutU32(|f.paths|, buf, 4);
  }

  lemma TakeOfEncoded(f: Frame, more: bytes)
    requires Deliverable(f)
    ensures TakeFrame(Encode(f) + more) == Taken(f, |Encode(f)|)
  {
    HeaderOfEncoded(f, more);
    ScanOfEncoded(Encode(f) + more, 8 + |f.payload|, f.paths);
  }

  lemma EncodedOfTaken(buf: bytes)
    requires TakeFrame(buf).Taken?
    ensures var t := TakeFrame(buf);
      Deliverable(t.frame) && Encode(t.frame) == buf[..t.size]
  {
    var plen, nh := GetU32(buf, 0), GetU32(buf, 4);
    var t := TakeFrame(buf);
    EncodedOfScan(buf, 8 + plen, nh);
    PutGetU32(buf, 0);
    PutGetU32(buf, 4);
    assert buf[..t.size] == buf[0..4] + buf[4..8] + buf[8..8 + plen] + buf[8 + plen..t.size];
  }

  /** The framing inverse: a buffer yields frame `f` exactly when it starts with the encoding of a
      deliverable `f`, and then exactly those bytes are taken. */
  lemma TakenIffEncoded(buf: bytes, f: Frame, n: nat)
    ensures TakeFrame(buf) == Taken(f, n) <==>
      Deliverable(f) && n == |Encode(f)| && Encode(f) <= buf
  {
    if TakeFrame(buf) == Taken(f, n) {
      EncodedOfTaken(buf);
    }
    if Deliverable(f) && Encode(f) <= buf {
      assert buf == Encode(f) + buf[|Encode(f)|..];
      TakeOfEncoded(f, buf[|Encode(f)|..]);
    }
  }

  /** On a strict prefix of a deliverable frame nothing is taken and nothing is refused. */
  lemma StrictPrefixWaits(f: Frame, buf: bytes)
    requires Deliverable(f) && buf < Encode(f)
    ensures TakeFrame(buf) == NeedMore
  {
    var rest := Encode(f)[|buf|..];
    assert buf + rest == Encode(f) == Encode(f) + [];
    TakeOfEncoded(f, []);
    if TakeFrame(buf) != NeedMore {
      TakeExtends(buf, rest);
    }
  }

  /** No deliverable frame is a prefix of another, so a stream can be cut into frames in one way only. */
  lemma EncodingIsPrefixFree(f: Frame, g: Frame)
    requires Deliverable(f) && Deliverable(g) && Encode(f) <= Encode(g)
    ensures f == g
  {
    TakenIffEncoded(Encode(g), f, |Encode(f)|);
    TakenIffEncoded(Encode(g), g, |Encode(g)|);
  }

  /** A path of no bytes, or of more than 4096, is sent without complaint and poisons the stream. */
  lemma UndeliverableIsBad(f: Frame, more: bytes)
    requires Sendable(f) && !Deliverable(f)
    ensures TakeFrame(Encode(f) + more) == Bad
  {
    HeaderOfEncoded(f, more);
    var k :| 0 <= k < |f.paths| && !GoodPath(f.paths[k]);
    BadScan(Encode(f) + more, 8 + |f.payload|, f.paths, k);
  }

  lemma {:induction false} BadScan(buf: bytes, at: nat, paths: seq<bytes>, k: nat)
    requires forall i :: 0 <= i < |paths| ==> |paths[i]| < U32_LIMIT
    requires k < |paths| && !GoodPath(paths[k])
    requires at <= |buf| && EncodePaths(paths) <= buf[at..]
    ensures ScanPaths(buf, at, |paths|) == BadLength
    decreases |paths|
  {
    var p := paths[0];
    FirstPathAt(buf, at, paths);
    ScanOnePath(buf, at, |paths|, p);
    if GoodPath(p) {
      BadScan(buf, at + 4 + |p|, paths[1..], k - 1);
    }
  }

  // ----- a whole stream -----

  /** What the receiver queues: a message, or the corrupt frame it reports as an error. */
  datatype Item = Message(frame: Frame) | Corrupt

  /** Everything a stream of bytes means to a receiver. */
  function Items(s: bytes): seq<Item>
    decreases |s|
  {
    match TakeFrame(s)
    case NeedMore => []
    case Bad => [Corrupt]
    case Taken(f, n) => [Message(f)] + Items(s[n..])
  }

  function Messages(fs: seq<Frame>): seq<Item> {
    seq(|fs|, i requires 0 <= i < |fs| => Message(fs[i]))
  }

  lemma MessagesFirst(fs: seq<Frame>, items: seq<Item>)
    requires fs != []
    ensures Messages(fs) + items == [Message(fs[0])] + (Messages(fs[1..]) + items)
  {
  }

  lemma NoMessages(items: seq<Item>)
    ensures Messages([]) + items == items
  {
  }

  lemma ItemsStep(s: bytes, more: bytes)
    requires TakeFrame(s).Taken?
    ensures var t := TakeFrame(s);
      Items(s + more) == [Message(t.frame)] + Items(s[t.size..] + more)
  {
    TakeExtends(s, more);
    assert (s + more)[TakeFrame(s).size..] == s[TakeFrame(s).size..] + more;
  }

  lemma ItemsOfEncoded(f: Frame, more: bytes)
    requires Deliverable(f)
    ensures Items(Encode(f) + more) == [Message(f)] + Items(more)
  {
    TakeOfEncoded(f, more);
    assert (Encode(f) + more)[|Encode(f)|..] == more;
  }

  lemma ItemsOfFirst(fs: seq<Frame>, tail: bytes)
    requires fs != [] && Sendable(fs[0])
    ensures Items(EncodeAll(fs) + tail) ==
      if Deliverable(fs[0]) then [Message(fs[0])] + Items(EncodeAll(fs[1..]) + tail) else [Corrupt]
  {
    var more := EncodeAll(fs[1..]) + tail;
    assert EncodeAll(fs) + tail == Encode(fs[0]) + more;
    if Deliverable(fs[0]) {
      ItemsOfEncoded(fs[0], more);
    } else {
      UndeliverableIsBad(fs[0], more);
    }
  }

  /** More bytes never change what earlier bytes already meant. */
  lemma {:induction false} ItemsGrow(s: bytes, more: bytes)
    ensures Items(s) <= Items(s + more)
    decreases |s|
  {
    match TakeFrame(s)
    case NeedMore =>
    case Bad => TakeExtends(s, more);
    case Taken(f, n) =>
      ItemsStep(s, more);
      ItemsGrow(s[n..], more);
  }

  ghost predicate WentBad(items: seq<Item>) {
    items != [] && items[|items| - 1] == Corrupt
  }

  /** After a corrupt frame nothing further is heard on a stream. */
  lemma {:induction false} CorruptIsLast(s: bytes, more: bytes)
    requires WentBad(Items(s))
    ensures Items(s + more) == Items(s)
    decreases |s|
  {
    match TakeFrame(s)
    case Bad => TakeExtends(s, more);
    case Taken(f, n) =>
      ItemsStep(s, more);
      assert WentBad(Items(s[n..]));
      CorruptIsLast(s[n..], more);
  }

  /** The stream of any list of deliverable frames, cut off anywhere inside one more, decodes to that list. */
  lemma {:induction false} ItemsOfEncodeAll(fs: seq<Frame>, tail: bytes)
    requires forall i :: 0 <= i < |fs| ==> Deliverable(fs[i])
    ensures Items(EncodeAll(fs) + tail) == Messages(fs) + Items(tail)
    decreases |fs|
  {
    hide TakeFrame, Encode, Items, Messages;
    if fs == [] {
      assert EncodeAll(fs) + tail == tail;
      NoMessages(Items(tail));
    } else {
      ItemsOfFirst(fs, tail);
      ItemsOfEncodeAll(fs[1..], tail);
      MessagesFirst(fs, Items(tail));
    }
  }

  lemma {:induction false} EncodeAllConcat(fs: seq<Frame>, gs: seq<Frame>)
    ensures EncodeAll(fs + gs) == EncodeAll(fs) + EncodeAll(gs)
  {
    if fs == [] {
      assert fs + gs == gs;
    } else {
      assert (fs + gs)[1..] == fs[1..] + gs;
      EncodeAllConcat(fs[1..], gs);
    }
  }

  /** With an undeliverable frame among them: everything before it, then one corrupt frame, then silence. */
  lemma ItemsWithUndeliverable(fs: seq<Frame>, k: nat, tail: bytes)
    requires k < |fs| && Sendable(fs[k]) && !Deliverable(fs[k])
    requires forall i :: 0 <= i < k ==> Deliverable(fs[i])
    ensures Items(EncodeAll(fs) + tail) == Messages(fs[..k]) + [Corrupt]
  {
    var more := EncodeAll(fs[k..]) + tail;
    assert fs[..k] + fs[k..] == fs;
    EncodeAllConcat(fs[..k], fs[k..]);
    assert EncodeAll(fs) + tail == EncodeAll(fs[..k]) + more;
    ItemsOfEncodeAll(fs[..k], more);
    ItemsOfFirst(fs[k..], tail);
  }
}
