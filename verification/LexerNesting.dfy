/**
  Which brackets are open and which `consider` block is innermost (`src/lexer.c`), told from the tokens read so far:
  an opening counts as long as no more has been closed than opened since.
*/
module LexerNesting {
  import opened LexerText
  import opened LexerSpec
  import opened LexerTheorems
  import opened LexerWords
  import opened LexerBraces
  import opened Wrappers

  /** One thing opened, one closed, or neither. */
  datatype Event<T> = Opens(what: T) | Closes | Neither

  /** Things opened less things closed in `es[a..b]`. */
  function Net<T>(es: seq<Event<T>>, a: nat, b: nat): int
    requires b <= |es|
  {
    if b <= a then 0
    else Net(es, a, b - 1) + match es[b - 1] case Opens(_) => 1 case Closes => -1 case Neither => 0
  }

  /** What was opened at `j` is open at `n`: from `j` on no more has been closed than opened. */
  ghost predicate StillOpen<T>(es: seq<Event<T>>, j: nat, n: nat)
    requires n <= |es|
  {
    j < n && es[j].Opens? && forall k :: j < k <= n ==> NotClosed(es, j, k)
  }

  predicate NotClosed<T>(es: seq<Event<T>>, j: nat, k: nat)
    requires k <= |es|
  {
    Net(es, j + 1, k) >= 0
  }

  ghost predicate NothingOpen<T>(es: seq<Event<T>>, n: nat)
    requires n <= |es|
  {
    forall k: nat :: !StillOpen(es, k, n)
  }

  /** A stack that is what is open at `n`, as far as its top goes. */
  ghost predicate TopIs<T>(es: seq<Event<T>>, n: nat, stack: seq<T>)
    requires n <= |es|
  {
    if stack == [] then NothingOpen(es, n)
    else exists j: nat :: InnermostAt(es, j, n) && stack[|stack| - 1] == es[j].what
  }

  ghost predicate InnermostAt<T>(es: seq<Event<T>>, j: nat, n: nat)
    requires n <= |es|
  {
    StillOpen(es, j, n) && forall k :: j < k < n ==> !StillOpen(es, k, n)
  }

  /** A stack kept by pushing what is opened and dropping the top when something is closed. */
  function Stack<T>(es: seq<Event<T>>, n: nat): seq<T>
    requires n <= |es|
  {
    if n == 0 then []
    else match es[n - 1]
      case Opens(x) => Stack(es, n - 1) + [x]
      case Closes => ButLast(Stack(es, n - 1))
      case Neither => Stack(es, n - 1)
  }

  /** Where the top of the stack was opened: nothing since is open, and without it the stack is as it was then. */
  ghost predicate OpenedAt<T>(es: seq<Event<T>>, j: nat, n: nat)
    requires n <= |es|
  {
    && InnermostAt(es, j, n) && Net(es, j + 1, n) == 0
    && Stack(es, n) == Stack(es, j) + [es[j].what]
  }

  lemma {:induction false} NetAdds<T>(es: seq<Event<T>>, a: nat, b: nat, c: nat)
    requires a <= b <= c <= |es|
    ensures Net(es, a, c) == Net(es, a, b) + Net(es, b, c)
    decreases c
  {
    if b < c {
      NetAdds(es, a, b, c - 1);
    }
  }

  lemma StaysOpen<T>(es: seq<Event<T>>, j: nat, n: nat)
    requires 0 < n <= |es|
    ensures StillOpen(es, j, n) <==>
      (j < n - 1 && StillOpen(es, j, n - 1) && Net(es, j + 1, n) >= 0) || (j == n - 1 && es[j].Opens?)
  {
    hide Net;
    if j == n - 1 && es[j].Opens? {
      NothingNet(es, n);
    }
    if j < n {
      assert NotClosed(es, j, n) <==> Net(es, j + 1, n) >= 0;
    }
  }

  lemma NothingNet<T>(es: seq<Event<T>>, n: nat)
    requires n <= |es|
    ensures Net(es, n, n) == 0
  {
  }

  /** Something is closed: what was innermost is open no more, nor is anything since. */
  lemma ClosedOne<T>(es: seq<Event<T>>, j: nat, n: nat)
    requires 0 < n <= |es| && es[n - 1].Closes? && j < n - 1 && InnermostAt(es, j, n - 1) && Net(es, j + 1, n - 1) == 0
    ensures forall k :: j <= k < n ==> !StillOpen(es, k, n)
  {
    assert Net(es, j + 1, n) == -1;
    hide Net;
    forall k | j <= k < n ensures !StillOpen(es, k, n) {
      StaysOpen(es, k, n);
    }
  }

  /** And what was innermost when it was opened is innermost again. */
  lemma OpenAgain<T>(es: seq<Event<T>>, i: nat, j: nat, n: nat)
    requires 0 < n <= |es| && es[n - 1].Closes? && i < j < n - 1
    requires InnermostAt(es, j, n - 1) && Net(es, j + 1, n - 1) == 0
    requires InnermostAt(es, i, j) && Net(es, i + 1, j) == 0
    ensures InnermostAt(es, i, n) && Net(es, i + 1, n) == 0
  {
    assert Net(es, j, j + 1) == 1;
    assert Net(es, j + 1, n) == -1;
    hide Net;
    NetAdds(es, i + 1, j, j + 1);
    NetAdds(es, i + 1, j + 1, n);
    forall k | i < k <= n ensures NotClosed(es, i, k) {
      if k <= j {
        assert NotClosed(es, i, k);
      } else if k < n {
        NetAdds(es, i + 1, j + 1, k);
        assert NotClosed(es, j, k);
      }
    }
    forall k | i < k < n ensures !StillOpen(es, k, n) {
      if k < j {
        StillOpenBefore(es, k, j, n);
      } else {
        ClosedOne(es, j, n);
      }
    }
  }

  lemma StillOpenBefore<T>(es: seq<Event<T>>, k: nat, j: nat, n: nat)
    requires k < j <= n <= |es| && !StillOpen(es, k, j)
    ensures !StillOpen(es, k, n)
  {
  }

  lemma PushedOn<T>(es: seq<Event<T>>, n: nat)
    requires 0 < n <= |es| && es[n - 1].Opens?
    ensures OpenedAt(es, n - 1, n)
  {
    NothingNet(es, n);
    StaysOpen(es, n - 1, n);
    hide Net, StillOpen;
  }

  lemma Unmoved<T>(es: seq<Event<T>>, j: nat, n: nat)
    requires 0 < n <= |es| && es[n - 1].Neither? && j < n - 1 && OpenedAt(es, j, n - 1)
    ensures OpenedAt(es, j, n)
  {
    assert Net(es, j + 1, n) == 0;
    hide Net, StillOpen;
    forall k: nat ensures StillOpen(es, k, n) ==> k == n - 1 || StillOpen(es, k, n - 1) {
      StaysOpen(es, k, n);
    }
    StaysOpen(es, j, n);
    StaysOpen(es, n - 1, n);
  }

  lemma NoneOpens<T>(es: seq<Event<T>>, n: nat)
    requires 0 < n <= |es| && !es[n - 1].Opens? && NothingOpen(es, n - 1)
    ensures NothingOpen(es, n)
  {
    forall k: nat ensures !StillOpen(es, k, n) {
      StaysOpen(es, k, n);
    }
  }

  /** The stack is empty exactly when nothing is open, and else its top was opened where nothing since is open. */
  lemma {:induction false} StackIs<T>(es: seq<Event<T>>, n: nat) returns (j: nat)
    requires n <= |es|
    ensures Stack(es, n) == [] ==> NothingOpen(es, n)
    ensures Stack(es, n) != [] ==> j < n && OpenedAt(es, j, n)
    decreases n
  {
    j := 0;
    if n > 0 {
      var before := StackIs(es, n - 1);
      hide StillOpen, OpenedAt;
      match es[n - 1] {
        case Opens(x) =>
          j := n - 1;
          PushedOn(es, n);
        case Neither =>
          j := before;
          if Stack(es, n) != [] {
            Unmoved(es, j, n);
          } else {
            NoneOpens(es, n);
          }
        case Closes =>
          if Stack(es, n - 1) != [] {
            LastStillOpen(es, before, n - 1);
            j := Dropped(es, before, n);
          } else {
            NoneOpens(es, n);
          }
      }
    }
  }

  lemma LastStillOpen<T>(es: seq<Event<T>>, j: nat, n: nat)
    requires n <= |es| && OpenedAt(es, j, n)
    ensures j < n
  {
  }

  lemma Dropped<T>(es: seq<Event<T>>, j: nat, n: nat) returns (i: nat)
    requires 0 < n <= |es| && es[n - 1].Closes? && j < n - 1 && OpenedAt(es, j, n - 1)
    ensures Stack(es, n) == [] ==> NothingOpen(es, n)
    ensures Stack(es, n) != [] ==> i < n && OpenedAt(es, i, n)
    decreases n, 0
  {
    assert Stack(es, n) == Stack(es, j);
    hide Stack, Net, StillOpen;
    i := StackIs(es, j);
    if Stack(es, j) != [] {
      OpenAgain(es, i, j, n);
    } else {
      ClosedOne(es, j, n);
      forall k: nat ensures !StillOpen(es, k, n) {
        if k < j {
          StillOpenBefore(es, k, j, n);
        } else if k >= n {
          NotYet(es, k, n);
        }
      }
    }
  }

  lemma NotYet<T>(es: seq<Event<T>>, k: nat, n: nat)
    requires n <= |es| && k >= n
    ensures !StillOpen(es, k, n)
  {
  }

  // ----- the tokens of a text -----

  function BracketEvent(a: Answer): Event<char> {
    match a.token.kind
    case Open(c) => Opens(c)
    case Closed(_) => Closes
    case _ => Neither
  }

  /** `consider` opens, with its column, what `end consider` closes. */
  function ConsiderEvent(a: Answer): Event<int> {
    match a.token.kind
    case Keyword(word) => if word == "consider" then Opens(a.token.column) else Neither
    case EndConsider => Closes
    case _ => Neither
  }

  function Brackets(all: seq<Answer>): seq<Event<char>> {
    seq(|all|, i requires 0 <= i < |all| => BracketEvent(all[i]))
  }

  function Considers(all: seq<Answer>): seq<Event<int>> {
    seq(|all|, i requires 0 <= i < |all| => ConsiderEvent(all[i]))
  }

  lemma {:induction false} StackPrefix<T>(es: seq<Event<T>>, es': seq<Event<T>>, n: nat)
    requires n <= |es| && n <= |es'| && es[..n] == es'[..n]
    ensures Stack(es, n) == Stack(es', n)
    decreases n
  {
    if n > 0 {
      assert es[..n][n - 1] == es'[..n][n - 1];
      assert es[..n - 1] == es[..n][..n - 1] && es'[..n - 1] == es'[..n][..n - 1];
      StackPrefix(es, es', n - 1);
    }
  }

  /** An SQL head has been read, and its line has not ended. */
  ghost predicate HeadOpen(all: seq<Answer>, n: nat)
    requires n <= |all|
  {
    exists j :: 0 <= j < n && all[j].token.kind == SqlOpen && NoneSince(all, j, n)
  }

  predicate NoneSince(all: seq<Answer>, j: nat, n: nat)
    requires n <= |all|
  {
    forall k :: j < k < n ==> !all[k].token.kind.Newline? && !all[k].token.kind.SqlText?
  }

  /** The line of an SQL head has ended, and its body has not been read. */
  ghost predicate BodyDue(all: seq<Answer>, n: nat)
    requires n <= |all|
  {
    exists m :: 0 <= m < n && all[m].token.kind == Newline && HeadOpen(all, m)
      && forall k :: m < k < n ==> !all[k].token.kind.SqlText? && !all[k].token.kind.SqlOpen?
  }

  /** The state agrees with the tokens read so far. */
  ghost predicate Follows(done: seq<Answer>, ctx: Context) {
    && ctx.brackets == Stack(Brackets(done), |done|)
    && ctx.considers == Stack(Considers(done), |done|)
    && (ctx.sql.HeadRead? <==> HeadOpen(done, |done|))
    && (ctx.sql.Due? <==> BodyDue(done, |done|) && !HeadOpen(done, |done|))
  }

  lemma HeadAfterOne(done: seq<Answer>, a: Answer)
    ensures HeadOpen(done + [a], |done| + 1) <==>
      a.token.kind == SqlOpen || (HeadOpen(done, |done|) && !a.token.kind.Newline? && !a.token.kind.SqlText?)
  {
    var all, n := done + [a], |done|;
    assert forall k :: 0 <= k < n ==> all[k] == done[k];
    assert all[n] == a;
    if HeadOpen(done, n) {
      var j :| 0 <= j < n && done[j].token.kind == SqlOpen && NoneSince(done, j, n);
      assert !a.token.kind.Newline? && !a.token.kind.SqlText? ==> NoneSince(all, j, n + 1);
    }
    if a.token.kind == SqlOpen {
      assert NoneSince(all, n, n + 1);
    }
    if j :| 0 <= j < n && all[j].token.kind == SqlOpen && NoneSince(all, j, n + 1) {
      assert NoneSince(done, j, n);
    }
  }

  lemma BodyAfterOne(done: seq<Answer>, a: Answer)
    ensures BodyDue(done + [a], |done| + 1) <==>
      (a.token.kind.Newline? && HeadOpen(done, |done|))
      || (BodyDue(done, |done|) && !a.token.kind.SqlText? && !a.token.kind.SqlOpen?)
  {
    var all, n := done + [a], |done|;
    assert forall k :: 0 <= k < n ==> all[k] == done[k];
    assert all[n] == a;
    forall m: nat | m <= n ensures HeadOpen(done, m) <==> HeadOpen(all, m) {
      HeadSame(done, a, m);
    }
    hide HeadOpen;
  }

  lemma SqlAfterOne(done: seq<Answer>, a: Answer, ctx: Context)
    requires ctx.sql.HeadRead? <==> HeadOpen(done, |done|)
    requires ctx.sql.Due? <==> BodyDue(done, |done|) && !HeadOpen(done, |done|)
    ensures var all, next := done + [a], After(ctx, a.token.kind, a.token.column);
      && (next.sql.HeadRead? <==> HeadOpen(all, |all|))
      && (next.sql.Due? <==> BodyDue(all, |all|) && !HeadOpen(all, |all|))
  {
    HeadAfterOne(done, a);
    BodyAfterOne(done, a);
    hide HeadOpen, BodyDue;
  }

  lemma HeadSame(done: seq<Answer>, a: Answer, m: nat)
    requires m <= |done|
    ensures HeadOpen(done, m) <==> HeadOpen(done + [a], m)
  {
    var all := done + [a];
    assert forall k :: 0 <= k < |done| ==> all[k] == done[k];
    assert forall j: nat :: NoneSince(done, j, m) <==> NoneSince(all, j, m);
  }

  lemma StackOneMore<T>(es: seq<Event<T>>, more: seq<Event<T>>)
    requires |more| == |es| + 1 && more[..|es|] == es
    ensures Stack(more, |more|) == match more[|es|]
      case Opens(x) => Stack(es, |es|) + [x]
      case Closes => ButLast(Stack(es, |es|))
      case Neither => Stack(es, |es|)
  {
    assert es[..|es|] == es;
    StackPrefix(es, more, |es|);
  }

  lemma FollowsOn(done: seq<Answer>, a: Answer, ctx: Context)
    requires Follows(done, ctx)
    ensures Follows(done + [a], After(ctx, a.token.kind, a.token.column))
  {
    var all, n := done + [a], |done|;
    SqlAfterOne(done, a, ctx);
    assert Brackets(all)[n] == BracketEvent(a) && Considers(all)[n] == ConsiderEvent(a);
    assert Brackets(all)[..n] == Brackets(done) && Considers(all)[..n] == Considers(done);
    StackOneMore(Brackets(done), Brackets(all));
    StackOneMore(Considers(done), Considers(all));
    hide HeadOpen, BodyDue, Stack, Brackets, Considers, ButLast;
  }

  /** The brackets open before the token at `i`, and the columns of the `consider` blocks open there. */
  function Around(all: seq<Answer>, i: nat): Context
    requires i <= |all|
  {
    Context(Stack(Brackets(all), i), Stack(Considers(all), i), NotDue)
  }

  function ScanOf(a: Answer): Scan { Scan(a.token.kind, a.token.start, a.token.length, a.state.at.off) }

  /** What the token at `i` of a text is, by its bytes and by what is open there; `asked` when the parser has asked for
      the content of a lens. */
  ghost predicate MeansAt(s: string, all: seq<Answer>, i: nat, past: int, asked: bool)
    requires i < |all|
  {
    var a, due := all[i], BodyDue(all, i) && !HeadOpen(all, i);
    && a.begin <= |s|
    && (if asked then a.token.kind.LensContent? || a.token.kind.Error?
        else if due then a.token.kind.SqlText? || a.token.kind.Error?
        else if a.begin == |s| then a.token.kind == if Around(all, i).brackets == [] then Eof else Error
        else if BeginsNothing(s, a.begin) then a.token.kind == Error
        else Ordinary(a.token.kind) && !a.token.kind.Last() && OrdinaryMeans(s, a, Around(all, i), past))
  }

  ghost predicate OrdinaryMeans(s: string, a: Answer, ctx: Context, past: int)
    requires a.begin <= |s|
  {
    a.begin < |s| && ScanMeans(s, a.begin, a.token.column, ctx, past, ScanOf(a))
  }

  /** A word, a brace or a symbol. */
  ghost predicate ScanMeans(s: string, at: nat, column: int, ctx: Context, past: int, r: Scan)
    requires at < |s|
  {
    && (WordStart(s[at]) ==> WordMeansAt(s, at, column, ctx, past, r))
    && (r.kind == ModifierValue <==> s[at] == '{' && HasValue(s, at + 1))
    && (r.kind == ModifierPrefix <==> s[at] == '{' && HasPrefix(s, at + 1))
    && (r.kind.Symbol? ==> LongestMark(s, at, r.end))
  }

  ghost predicate WordMeansAt(s: string, at: nat, column: int, ctx: Context, past: int, r: Scan) {
    exists end :: WordIn(s, at, end) && WordMeans(s, at, end, column, ctx, past, r)
  }

  lemma TokenMeans(s: string, at: nat, column: int, ctx: Context, past: int)
    requires at < |s| && !TokenFrom(s, at, column, ctx, past).kind.Last()
    ensures ScanMeans(s, at, column, ctx, past, TokenFrom(s, at, column, ctx, past))
  {
    hide WordFrom, BraceFrom, SymbolFrom, NumberFrom, StringFrom, WordMeans, WordIn, HasValue, HasPrefix, ValueAt,
      PrefixAt, LongestMark;
    if WordStart(s[at]) {
      WordHere(s, at);
      WordIs(s, at, Over(s, at, WordChar), column, ctx, past);
      WordIsNoError(s, at, column, ctx, past);
      WordIsNoSymbol(s, at, column, ctx, past);
    } else if s[at] == '{' {
      BraceIs(s, at);
    } else {
      SymbolIsItsText(s, at);
      SymbolIs(s, at);
    }
  }

  lemma WordHere(s: string, at: nat)
    requires at < |s| && WordStart(s[at])
    ensures WordIn(s, at, Over(s, at, WordChar))
  {
    WordInIs(s, at, Over(s, at, WordChar));
  }

  lemma WordIsNoSymbol(s: string, at: nat, column: int, ctx: Context, past: int)
    requires at < |s| && WordStart(s[at])
    ensures !WordFrom(s, at, column, ctx, past).kind.Symbol?
  {
    hide ConsiderAfter, QualifiedFrom, Over, Branch;
    WordKindIff(s, at, Over(s, at + 1, WordChar));
    hide WordKind;
    var k := NameOrWord(s, WordKind(s, at, Over(s, at + 1, WordChar)), Over(s, at + 1, WordChar), ctx.brackets);
    BranchKinds(k, column, ctx.considers, past);
  }

  lemma SameMeaning(s: string, at: nat, end: nat, column: int, ctx: Context, other: Context, past: int, r: Scan)
    requires at <= end <= |s| && ctx.brackets == other.brackets && ctx.considers == other.considers
    requires WordMeans(s, at, end, column, ctx, past, r)
    ensures WordMeans(s, at, end, column, other, past, r)
  {
  }

  lemma SameAround(s: string, at: nat, column: int, ctx: Context, other: Context, past: int, r: Scan)
    requires at < |s| && ctx.brackets == other.brackets && ctx.considers == other.considers
    requires ScanMeans(s, at, column, ctx, past, r)
    ensures ScanMeans(s, at, column, other, past, r)
  {
    if WordStart(s[at]) {
      var end :| WordIn(s, at, end) && WordMeans(s, at, end, column, ctx, past, r);
      SameMeaning(s, at, end, column, ctx, other, past, r);
    }
    hide WordIn, WordMeans, HasValue, HasPrefix, LongestMark;
  }

  lemma OrdinaryScan(s: string, st: State, past: int)
    requires At?(s, st) && !st.lens && !st.ctx.sql.Due? && !Next(s, st, past).token.kind.Last()
    ensures var a := Next(s, st, past);
      a.begin < |s| && ScanOf(a) == TokenFrom(s, a.begin, a.token.column, st.ctx, past)
  {
    hide Move, TokenFrom, StartOf;
  }

  lemma OrdinaryIs(s: string, st: State, past: int, around: Context)
    requires At?(s, st) && !st.lens && !st.ctx.sql.Due? && !Next(s, st, past).token.kind.Last()
    requires around.brackets == st.ctx.brackets && around.considers == st.ctx.considers
    ensures var a := Next(s, st, past); a.begin <= |s| && OrdinaryMeans(s, a, around, past)
  {
    hide Next, TokenFrom, ScanMeans;
    var a := Next(s, st, past);
    OrdinaryScan(s, st, past);
    TokenMeans(s, a.begin, a.token.column, st.ctx, past);
    SameAround(s, a.begin, a.token.column, st.ctx, around, past, ScanOf(a));
  }

  /** The same by the state that the lexer is in. */
  ghost predicate MeansIn(s: string, st: State, past: int, a: Answer) {
    && a.begin <= |s|
    && (if st.lens then a.token.kind.LensContent? || a.token.kind.Error?
        else if st.ctx.sql.Due? then a.token.kind.SqlText? || a.token.kind.Error?
        else if a.begin == |s| then a.token.kind == if st.ctx.brackets == [] then Eof else Error
        else if BeginsNothing(s, a.begin) then a.token.kind == Error
        else Ordinary(a.token.kind) && !a.token.kind.Last())
  }

  lemma NextIsMeant(s: string, st: State, past: int)
    requires At?(s, st)
    ensures MeansIn(s, st, past, Next(s, st, past))
    ensures var a := Next(s, st, past);
      !a.token.kind.Last() ==> a.state.ctx == After(st.ctx, a.token.kind, a.token.column)
  {
    var at := StartOf(s, st);
    var column := Move(s, st.at, at).column;
    if !st.lens && !st.ctx.sql.Due? && at < |s| {
      TokenSpans(s, at, column, st.ctx, past);
      ErrorIff(s, at, column, st.ctx, past);
    }
    hide TokenFrom, Move, StartOf, Spans, InlineRight, BeginsNothing, After;
  }

  lemma NextMeans(s: string, done: seq<Answer>, st: State, past: int)
    requires At?(s, st) && Follows(done, st.ctx)
    ensures var a := Next(s, st, past);
      && MeansAt(s, done + [a], |done|, past, st.lens)
      && (!a.token.kind.Last() ==> Follows(done + [a], a.state.ctx))
  {
    var a := Next(s, st, past);
    var around := Around(done + [a], |done|);
    FollowsOn(done, a, st.ctx);
    NextIsMeant(s, st, past);
    SameEvents(done, a);
    assert around.brackets == st.ctx.brackets && around.considers == st.ctx.considers;
    if !st.lens && !st.ctx.sql.Due? && !a.token.kind.Last() {
      OrdinaryIs(s, st, past, around);
    }
    hide Next, Around, OrdinaryMeans, BeginsNothing, HeadOpen, BodyDue, Stack;
    assert (done + [a])[|done|] == a;
  }

  /** What is open before a token depends on those before it alone. */
  lemma SameEvents(done: seq<Answer>, a: Answer)
    ensures Around(done + [a], |done|) == Around(done, |done|)
    ensures HeadOpen(done + [a], |done|) <==> HeadOpen(done, |done|)
    ensures BodyDue(done + [a], |done|) <==> BodyDue(done, |done|)
  {
    SameEventsBefore(done, [a], |done|);
  }

  lemma SameEventsBefore(done: seq<Answer>, more: seq<Answer>, n: nat)
    requires n <= |done|
    ensures Around(done + more, n) == Around(done, n)
    ensures HeadOpen(done + more, n) <==> HeadOpen(done, n)
    ensures BodyDue(done + more, n) <==> BodyDue(done, n)
  {
    var all := done + more;
    assert forall k :: 0 <= k < |done| ==> all[k] == done[k];
    assert Brackets(all)[..n] == Brackets(done)[..n] && Considers(all)[..n] == Considers(done)[..n];
    StackPrefix(Brackets(all), Brackets(done), n);
    StackPrefix(Considers(all), Considers(done), n);
    assert forall j: nat, m: nat :: m <= |done| ==> (NoneSince(done, j, m) <==> NoneSince(all, j, m));
    assert forall m: nat :: m <= |done| ==> (HeadOpen(done, m) <==> HeadOpen(all, m));
  }

  // ----- whole texts -----

  predicate AskedAt(asks: seq<bool>, k: int) { 0 <= k < |asks| && asks[k] }

  ghost predicate AllMean(s: string, all: seq<Answer>, from: nat, asks: seq<bool>, past: nat -> int) {
    forall i: nat :: from <= i < |all| ==> MeansAt(s, all, i, past(i), AskedAt(asks, i - from))
  }

  lemma {:induction false} RunMeans(s: string, done: seq<Answer>, st: State, asks: seq<bool>, past: nat -> int)
    requires At?(s, st) && Follows(done, st.ctx) && !st.lens
    ensures AllMean(s, done + Lex(s, st, asks, past, |done|), |done|, asks, past)
    decreases Measure(s, st) + 2 * |asks|
  {
    hide Follows, Next, MeansAt;
    var now := Asked(st, asks);
    NextMeans(s, done, now, past(|done|));
    NextFalls(s, now, past(|done|));
    NotAskedAgain(s, now, past(|done|));
    var a := Next(s, now, past(|done|));
    if !a.token.kind.Last() {
      RunMeans(s, done + [a], a.state, Later(asks), past);
      var more := Lex(s, a.state, Later(asks), past, |done| + 1);
      assert done + ([a] + more) == (done + [a]) + more;
      assert forall k: int :: AskedAt(Later(asks), k) ==> AskedAt(asks, k + 1);
      assert forall k: int :: k > 0 && AskedAt(asks, k) ==> AskedAt(Later(asks), k - 1);
      hide Lex, AskedAt;
      MeansSoFar(s, done + [a], more, |done|, past(|done|), now.lens);
    }
  }

  lemma NotAskedAgain(s: string, st: State, past: int)
    requires At?(s, st)
    ensures !Next(s, st, past).state.lens
  {
  }

  lemma MeansSoFar(s: string, all: seq<Answer>, more: seq<Answer>, i: nat, past: int, asked: bool)
    requires i < |all| && MeansAt(s, all, i, past, asked)
    ensures MeansAt(s, all + more, i, past, asked)
  {
    SameEventsBefore(all, more, i);
    hide HeadOpen, BodyDue, OrdinaryMeans, Around, BeginsNothing;
    assert (all + more)[i] == all[i];
  }

  /** Every token of every text is what its bytes, and what is open where it stands, make it. */
  lemma EveryTokenMeans(s: string, first: int, asks: seq<bool>, past: nat -> int)
    ensures AllMean(s, Lex(s, Start(s, first), asks, past, 0), 0, asks, past)
  {
    var st := Start(s, first);
    assert Follows([], st.ctx);
    RunMeans(s, [], st, asks, past);
    var all := Lex(s, st, asks, past, 0);
    hide *;
    assert [] + all == all;
  }

  /** And what is open is what an opening token has opened and none since has closed: innermost the last of these. */
  lemma AroundIs(all: seq<Answer>, i: nat)
    requires i <= |all|
    ensures TopIs(Brackets(all), i, Around(all, i).brackets) && TopIs(Considers(all), i, Around(all, i).considers)
  {
    hide Stack, StillOpen;
    var j := StackIs(Brackets(all), i);
    var k := StackIs(Considers(all), i);
  }
}
