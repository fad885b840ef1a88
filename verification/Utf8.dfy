/**
  UTF-8 as the line editor walks it (`src/lineedit.c`): forward and back over continuation bytes.
  Well-formed text is that of section 4 of RFC 3629.
*/
module Utf8 {
  import opened Bytes

  predicate Continuation(b: byte) { 0x80 <= b < 0xC0 }

  /** How many bytes a codepoint that starts with `b` has; 0 when none does. */
  function Width(b: byte): nat {
    if b < 0x80 then 1
    else if 0xC2 <= b <= 0xDF then 2
    else if 0xE0 <= b <= 0xEF then 3
    else if 0xF0 <= b <= 0xF4 then 4
    else 0
  }

  predicate Codepoint(s: bytes) {
    && s != [] && |s| == Width(s[0])
    && (forall i :: 1 <= i < |s| ==> Continuation(s[i]))
    && (s[0] == 0xE0 ==> s[1] >= 0xA0)
    && (s[0] == 0xED ==> s[1] <= 0x9F)
    && (s[0] == 0xF0 ==> s[1] >= 0x90)
    && (s[0] == 0xF4 ==> s[1] <= 0x8F)
  }

  predicate WellFormed(s: bytes) {
    s == [] || (0 < Width(s[0]) <= |s| && Codepoint(s[..Width(s[0])]) && WellFormed(s[Width(s[0])..]))
  }

  /** A place between codepoints. */
  predicate Boundary(s: bytes, pos: nat) {
    pos == |s| || (pos < |s| && !Continuation(s[pos]))
  }

  function NextFrom(s: bytes, q: nat): (r: nat)
    requires q <= |s|
    ensures q <= r && Boundary(s, r) && forall k :: q <= k < r ==> Continuation(s[k])
    decreases |s| - q
  {
    if q < |s| && Continuation(s[q]) then NextFrom(s, q + 1) else q
  }

  /** `utf8_next`. */
  function Next(s: bytes, pos: nat): (r: nat)
    ensures r <= |s| && (pos < |s| ==> pos < r && Boundary(s, r) && forall k :: pos < k < r ==> Continuation(s[k]))
  {
    if pos >= |s| then |s| else NextFrom(s, pos + 1)
  }

  function PrevFrom(s: bytes, q: nat): (r: nat)
    requires q < |s|
    ensures r <= q && (r == 0 || !Continuation(s[r])) && forall k :: r < k <= q ==> Continuation(s[k])
  {
    if q > 0 && Continuation(s[q]) then PrevFrom(s, q - 1) else q
  }

  /** `utf8_prev`. */
  function Prev(s: bytes, pos: nat): (r: nat)
    requires pos <= |s|
    ensures r <= pos && (pos > 0 ==> r < pos && (r == 0 || !Continuation(s[r])))
    ensures forall k :: r < k < pos ==> Continuation(s[k])
  {
    if pos == 0 then 0 else PrevFrom(s, pos - 1)
  }

  /** `utf8_cols`. */
  function Cols(s: bytes): nat {
    if s == [] then 0 else Cols(s[..|s| - 1]) + if Continuation(s[|s| - 1]) then 0 else 1
  }

  /** The number of codepoints of well-formed text. */
  function Count(s: bytes): nat
    requires WellFormed(s)
  {
    if s == [] then 0 else 1 + Count(s[Width(s[0])..])
  }

  /* ---- walking ---- */

  /** Forward and back return to the boundary started from. */
  lemma NextThenPrev(s: bytes, pos: nat)
    requires Boundary(s, pos) && pos < |s|
    ensures Prev(s, Next(s, pos)) == pos
  {
  }

  /** Back and forward return to the boundary started from. */
  lemma PrevThenNext(s: bytes, pos: nat)
    requires Boundary(s, pos) && pos > 0
    ensures Next(s, Prev(s, pos)) == pos
  {
  }

  lemma {:induction false} ColsAdd(a: bytes, b: bytes)
    ensures Cols(a + b) == Cols(a) + Cols(b)
    decreases |b|
  {
    if b == [] {
      assert a + b == a;
    } else {
      var n := |b| - 1;
      ColsAdd(a, b[..n]);
      assert (a + b)[..|a + b| - 1] == a + b[..n];
    }
  }

  lemma {:induction false} ColsOfContinuations(s: bytes)
    requires forall k :: 0 <= k < |s| ==> Continuation(s[k])
    ensures Cols(s) == 0
  {
    if s != [] {
      ColsOfContinuations(s[..|s| - 1]);
    }
  }

  /** One step forward from a boundary passes one column. */
  lemma NextIsOneColumn(s: bytes, pos: nat)
    requires Boundary(s, pos) && pos < |s|
    ensures Cols(s[..Next(s, pos)]) == Cols(s[..pos]) + 1
  {
    var q := Next(s, pos);
    assert s[..q] == s[..pos + 1] + s[pos + 1..q];
    ColsAdd(s[..pos + 1], s[pos + 1..q]);
    ColsOfContinuations(s[pos + 1..q]);
    assert s[..pos + 1][..pos] == s[..pos];
  }

  /* ---- well-formed text ---- */

  lemma CodepointHead(s: bytes, c: bytes, t: bytes)
    requires Codepoint(c) && s == c + t
    ensures Width(s[0]) == |c| && s[..|c|] == c && s[|c|..] == t
  {
  }

  lemma {:induction false} WellFormedJoins(a: bytes, b: bytes)
    requires WellFormed(a)
    ensures WellFormed(a + b) <==> WellFormed(b)
    decreases |a|
  {
    if a == [] {
      assert a + b == b;
    } else {
      var w := Width(a[0]);
      WellFormedJoins(a[w..], b);
      assert a == a[..w] + a[w..];
      assert a + b == a[..w] + (a[w..] + b);
      CodepointHead(a + b, a[..w], a[w..] + b);
    }
  }

  lemma OneCodepoint(c: bytes)
    requires Codepoint(c)
    ensures WellFormed(c)
  {
    assert c == c + [];
    CodepointHead(c, c, []);
  }

  lemma WellFormedStart(s: bytes)
    requires WellFormed(s)
    ensures Boundary(s, 0)
  {
  }

  lemma CutLater<T>(s: seq<T>, w: nat, pos: nat)
    requires w <= pos <= |s|
    ensures s[w..][pos - w..] == s[pos..] && s[..pos] == s[..w] + s[w..][..pos - w]
  {
  }

  /** Well-formed text can be cut exactly where no continuation byte stands. */
  lemma {:induction false} CutIffBoundary(s: bytes, pos: nat)
    requires WellFormed(s) && pos <= |s|
    ensures Boundary(s, pos) <==> WellFormed(s[..pos]) && WellFormed(s[pos..])
    decreases |s|
  {
    if WellFormed(s[pos..]) {
      WellFormedStart(s[pos..]);
    }
    if Boundary(s, pos) && 0 < pos {
      var w := Width(s[0]);
      var c, t := s[..w], s[w..];
      assert forall k :: 1 <= k < w ==> Continuation(c[k]) && c[k] == s[k];
      assert w <= pos;
      CutIffBoundary(t, pos - w);
      CutLater(s, w, pos);
      OneCodepoint(c);
      WellFormedJoins(c, t[..pos - w]);
    } else if pos == 0 {
      assert s[0..] == s && s[..0] == [];
    }
  }

  /** The columns of well-formed text are its codepoints. */
  lemma {:induction false} ColumnsAreCodepoints(s: bytes)
    requires WellFormed(s)
    ensures Cols(s) == Count(s)
  {
    if s != [] {
      var w := Width(s[0]);
      ColumnsAreCodepoints(s[w..]);
      assert s == [s[0]] + s[1..w] + s[w..];
      ColsAdd([s[0]] + s[1..w], s[w..]);
      ColsAdd([s[0]], s[1..w]);
      assert Cols([s[0]]) == Cols([]) + 1;
      assert forall k :: 0 <= k < w - 1 ==> s[1..w][k] == s[..w][k + 1];
      ColsOfContinuations(s[1..w]);
    }
  }
}
