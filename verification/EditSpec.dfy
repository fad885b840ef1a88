/**
  One line being edited (`src/lineedit.c`, `line_edit`): what each key does to the text, the cursor and the
  place in history.  The keyboard is the bytes still to come, each with whether it arrives soon after the
  one before it, which is all that tells an arrow key from the Escape key.
*/
module EditSpec {
  import opened Bytes
  import opened Utf8

  datatype Arrival = Arrival(b: byte, soon: bool)

  datatype Line = Line(text: bytes, pos: nat)

  /** `recall` is `hist_index`, `saved` the line that was being typed. */
  datatype Edit = Edit(line: Line, recall: nat, saved: bytes)

  datatype Outcome =
    | Submitted(text: bytes)
    | EndOfInput

  datatype Step =
    | Goes(edit: Edit, rest: seq<Arrival>)
    | Ends(outcome: Outcome, rest: seq<Arrival>)

  function Insert(l: Line, s: bytes): Line
    requires l.pos <= |l.text|
  {
    Line(l.text[..l.pos] + s + l.text[l.pos..], l.pos + |s|)
  }

  /** Deleting nothing moves nothing. */
  function Delete(l: Line, from: nat, to: nat): Line
    requires to <= |l.text|
  {
    if from >= to then l else Line(l.text[..from] + l.text[to..], from)
  }

  function AtEnd(text: bytes): Line { Line(text, |text|) }

  /** `isspace` in the C locale. */
  predicate Space(b: byte) { b == 32 || 9 <= b <= 13 }

  function BackOver(s: bytes, pos: nat, space: bool): (r: nat)
    requires pos <= |s|
    ensures r <= pos && (r == 0 || Space(s[r - 1]) != space)
    ensures forall k :: r <= k < pos ==> Space(s[k]) == space
  {
    if pos > 0 && Space(s[pos - 1]) == space then BackOver(s, pos - 1, space) else pos
  }

  /** Where the word before the cursor starts, any spaces after it included. */
  function WordStart(s: bytes, pos: nat): (r: nat)
    requires pos <= |s|
    ensures r <= pos
  {
    BackOver(s, BackOver(s, pos, true), false)
  }

  predicate Soon(rest: seq<Arrival>) { rest != [] && rest[0].soon }

  predicate Digit(b: byte) { 48 <= b <= 57 }

  /** How many bytes after an Escape belong to it. */
  function Taken(rest: seq<Arrival>): (n: nat)
    ensures n <= |rest| && n <= 3
  {
    if !Soon(rest) then 0
    else if rest[0].b != 91 && rest[0].b != 79 then 1
    else if !Soon(rest[1..]) then 1
    else if !Digit(rest[1].b) then 2
    else if !Soon(rest[2..]) then 2
    else 3
  }

  datatype Command = Nothing | Left | Right | Home | End | DeleteRight | Up | Down

  /** What the bytes taken mean: `[` or `O`, then a letter, or a digit and a tilde. */
  function Meaning(taken: seq<Arrival>): Command {
    if |taken| == 2 then
      match taken[1].b
      case 65 => Up
      case 66 => Down
      case 67 => Right
      case 68 => Left
      case 72 => Home
      case 70 => End
      case _ => Nothing
    else if |taken| == 3 && taken[2].b == 126 then
      match taken[1].b
      case 51 => DeleteRight
      case 49 => Home
      case 55 => Home
      case 52 => End
      case 56 => End
      case _ => Nothing
    else Nothing
  }

  function RecallStep(e: Edit, up: bool, history: seq<bytes>): Edit {
    if history == [] then e
    else
      var kept := if e.recall == |history| then e.(saved := e.line.text) else e;
      var to := if up then kept.recall - 1 else kept.recall + 1;
      if to < 0 || to > |history| then kept
      else Edit(AtEnd(if to == |history| then kept.saved else history[to]), to, kept.saved)
  }

  predicate Valid(e: Edit, history: seq<bytes>) {
    e.line.pos <= |e.line.text| && e.recall <= |history|
  }

  function Perform(e: Edit, c: Command, history: seq<bytes>): (r: Edit)
    requires Valid(e, history)
    ensures Valid(r, history)
  {
    var l := e.line;
    match c
    case Nothing => e
    case Left => e.(line := l.(pos := Prev(l.text, l.pos)))
    case Right => e.(line := l.(pos := Next(l.text, l.pos)))
    case Home => e.(line := l.(pos := 0))
    case End => e.(line := AtEnd(l.text))
    case DeleteRight => e.(line := Delete(l, l.pos, Next(l.text, l.pos)))
    case Up => RecallStep(e, true, history)
    case Down => RecallStep(e, false, history)
  }

  /** A key of one byte that does not end the line, the Escape aside. */
  function Plain(l: Line, b: byte): (r: Line)
    requires l.pos <= |l.text|
    ensures r.pos <= |r.text|
  {
    if b == 4 then Delete(l, l.pos, Next(l.text, l.pos))
    else if b == 127 || b == 8 then if l.pos > 0 then Delete(l, Prev(l.text, l.pos), l.pos) else l
    else if b == 1 then l.(pos := 0)
    else if b == 5 then AtEnd(l.text)
    else if b == 2 then l.(pos := Prev(l.text, l.pos))
    else if b == 6 then l.(pos := Next(l.text, l.pos))
    else if b == 11 then AtEnd(l.text[..l.pos])
    else if b == 21 then Delete(l, 0, l.pos)
    else if b == 23 then Delete(l, WordStart(l.text, l.pos), l.pos)
    else if b == 9 then Insert(l, [32, 32])
    else if b >= 32 then Insert(l, [b])
    else l
  }

  /** One key. */
  function Key(e: Edit, input: seq<Arrival>, history: seq<bytes>): (r: Step)
    requires Valid(e, history)
    ensures input != [] ==> |r.rest| < |input|
    ensures r.Goes? ==> Valid(r.edit, history) && input != []
  {
    if input == [] then
      Ends(if e.line.text == [] then EndOfInput else Submitted(e.line.text), input)
    else
      var b, rest := input[0].b, input[1..];
      if b == 13 || b == 10 then Ends(Submitted(e.line.text), rest)
      else if b == 3 then Ends(Submitted([]), rest)
      else if b == 4 && e.line.text == [] then Ends(EndOfInput, rest)
      else if b == 27 then
        Goes(Perform(e, Meaning(rest[..Taken(rest)]), history), rest[Taken(rest)..])
      else Goes(e.(line := Plain(e.line, b)), rest)
  }

  /** The line, keyed to its end. */
  function Typed(e: Edit, input: seq<Arrival>, history: seq<bytes>): (r: Step)
    requires Valid(e, history)
    ensures r.Ends?
    decreases |input|
  {
    var step := Key(e, input, history);
    if step.Ends? then step else Typed(step.edit, step.rest, history)
  }

  function Fresh(history: seq<bytes>): Edit { Edit(Line([], 0), |history|, []) }

  /* ---- walking up and down the history ---- */

  function Ups(e: Edit, n: nat, history: seq<bytes>): Edit
    requires Valid(e, history)
    decreases n
  {
    if n == 0 then e else Ups(Perform(e, Up, history), n - 1, history)
  }

  function Downs(e: Edit, n: nat, history: seq<bytes>): Edit
    requires Valid(e, history)
    decreases n
  {
    if n == 0 then e else Downs(Perform(e, Down, history), n - 1, history)
  }

  lemma {:induction false} UpsFrom(e: Edit, n: nat, history: seq<bytes>)
    requires Valid(e, history) && n <= e.recall < |history|
    ensures Ups(e, n, history) == if n == 0 then e
              else Edit(AtEnd(history[e.recall - n]), e.recall - n, e.saved)
    decreases n
  {
    if n > 0 {
      UpsFrom(Perform(e, Up, history), n - 1, history);
    }
  }

  lemma {:induction false} DownsFrom(e: Edit, n: nat, history: seq<bytes>)
    requires Valid(e, history) && e.recall < |history| && 0 < n <= |history| - e.recall
    ensures Downs(e, n, history) ==
      Edit(AtEnd(if e.recall + n == |history| then e.saved else history[e.recall + n]), e.recall + n, e.saved)
    decreases n
  {
    if n > 1 {
      DownsFrom(Perform(e, Down, history), n - 1, history);
    }
  }

  /** Going up any way and as far down again returns the line that was being typed, cursor at its end,
      and every entry passed was shown as it is. */
  lemma UpThenDown(e: Edit, n: nat, history: seq<bytes>)
    requires Valid(e, history) && e.recall == |history| && 0 < n <= |history|
    ensures Valid(Ups(e, n, history), history)
    ensures Ups(e, n, history).line == AtEnd(history[|history| - n])
    ensures Downs(Ups(e, n, history), n, history) == Edit(AtEnd(e.line.text), |history|, e.line.text)
  {
    var one := Perform(e, Up, history);
    UpsFrom(one, n - 1, history);
    DownsFrom(Ups(e, n, history), n, history);
  }
}
