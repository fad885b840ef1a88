/**
  Text that is a number (`include/gb_number_text.h`).  `Shaped` is the grammar the header describes; `Problem`
  walks the text once.  Blanks are trimmed off in place first.
*/
module NumberText {
  import opened Chars

  datatype Verdict =
    | Fine
    | HoldsNul
    | Empty
    | SignOnly
    | NotWhole
    | NotPlain
    | NotDigits
    | NotWholeDigits
    | SpaceInside
    | PastRange

  predicate Blank(c: char) { c == ' ' || c == '\t' || c == '\r' || c == '\n' }

  predicate Sign(c: char) { c == '+' || c == '-' }

  predicate Exponent(c: char) { c == 'e' || c == 'E' }

  predicate Digits(s: string) { forall i :: 0 <= i < |s| ==> Digit(s[i]) }

  predicate Signs(s: string) { s == "" || s == "+" || s == "-" }

  function ValueOf(s: string): int
    requires Digits(s)
  {
    if s == "" then 0 else 10 * ValueOf(s[..|s| - 1]) + (s[|s| - 1] - '0') as int
  }

  const INT64_MIN: int := -0x8000_0000_0000_0000
  const INT64_MAX: int := 0x7FFF_FFFF_FFFF_FFFF

  /** A sign and digits. */
  ghost predicate WholeParts(t: string, sign: string, digits: string) {
    t == sign + digits && Signs(sign) && Digits(digits) && digits != ""
  }

  /** `[+-]?d+` with a value that fits 64 bits. */
  ghost predicate IsInteger(t: string) {
    exists sign, digits :: WholeParts(t, sign, digits)
      && INT64_MIN <= (if sign == "-" then -ValueOf(digits) else ValueOf(digits)) <= INT64_MAX
  }

  /** `.d*`, or nothing. */
  ghost predicate Fraction(s: string, digits: string) {
    Digits(digits) && (s == "." + digits || (s == "" && digits == ""))
  }

  /** `[eE][+-]?d+`, or nothing. */
  ghost predicate Power(s: string) {
    s == "" || exists e: char, sign, digits :: PowerParts(s, e, sign, digits)
  }

  ghost predicate PowerParts(s: string, e: char, sign: string, digits: string) {
    s == [e] + sign + digits && Exponent(e) && Signs(sign) && Digits(digits) && digits != ""
  }

  ghost predicate NumberParts(t: string, sign: string, whole: string, fraction: string, after: string, power: string) {
    && t == sign + whole + fraction + power
    && Signs(sign) && Digits(whole) && Fraction(fraction, after) && whole + after != "" && Power(power)
  }

  /** `[+-]?(d+(.d*)?|.d+)([eE][+-]?d+)?`. */
  ghost predicate IsNumber(t: string) {
    exists sign, whole, fraction, after, power :: NumberParts(t, sign, whole, fraction, after, power)
  }

  /* ---- the walk ---- */

  /** How many digits come first. */
  function Run(s: string): (n: nat)
    ensures n <= |s| && Digits(s[..n]) && (n < |s| ==> !Digit(s[n]))
  {
    if s == "" || !Digit(s[0]) then 0
    else
      var n := Run(s[1..]);
      assert s[..n + 1] == [s[0]] + s[1..][..n];
      1 + n
  }

  function Unsigned(s: string): string { if s != "" && Sign(s[0]) then s[1..] else s }

  function SignOf(s: string): string { if s != "" && Sign(s[0]) then s[..1] else "" }

  /** After everything that could be read. */
  function Rest(x: string, t: string, integer: bool): Verdict {
    if x != "" && Blank(x[0]) then SpaceInside
    else if x != "" then (if integer && Exponent(x[0]) then NotWholeDigits else NotDigits)
    else if integer && !InRange(t) then PastRange
    else Fine
  }

  /** `strtoll` over a sign and digits does not report a range error. */
  predicate InRange(t: string) {
    Digits(Unsigned(t)) ==>
      INT64_MIN <= (if SignOf(t) == "-" then -ValueOf(Unsigned(t)) else ValueOf(Unsigned(t))) <= INT64_MAX
  }

  function AfterDigits(x: string, t: string, integer: bool): Verdict {
    if !integer && x != "" && Exponent(x[0]) then
      var z := Unsigned(x[1..]);
      if Run(z) == 0 then NotDigits else Rest(z[Run(z)..], t, integer)
    else Rest(x, t, integer)
  }

  function AfterSign(u: string, t: string, integer: bool): Verdict {
    var w := Run(u);
    var v := u[w..];
    if v != "" && (v[0] == ',' || (v[0] == '.' && integer)) then
      if integer then NotWhole else NotPlain
    else if v != "" && v[0] == '.' then
      var f := Run(v[1..]);
      if w + f == 0 then NotDigits else AfterDigits(v[1 + f..], t, integer)
    else if w == 0 then NotDigits
    else AfterDigits(v, t, integer)
  }

  /** `gb_number_text_problem` of a text that holds no NUL. */
  function Problem(t: string, integer: bool): Verdict {
    if t == "" then Empty
    else if Unsigned(t) == "" then SignOnly
    else AfterSign(Unsigned(t), t, integer)
  }

  /* ---- the walk accepts the grammar ---- */

  lemma SignSplit(s: string)
    ensures s == SignOf(s) + Unsigned(s) && Signs(SignOf(s))
  {
  }

  lemma RunSplit(s: string)
    ensures s == s[..Run(s)] + s[Run(s)..]
  {
  }

  lemma SignRead(sign: string, s: string)
    requires Signs(sign) && s != "" && !Sign(s[0])
    ensures Unsigned(sign + s) == s && SignOf(sign + s) == sign
  {
    assert (sign + s)[|sign|..] == s;
  }

  lemma {:induction false} RunRead(digits: string, s: string)
    requires Digits(digits) && (s == "" || !Digit(s[0]))
    ensures Run(digits + s) == |digits| && (digits + s)[|digits|..] == s
  {
    if digits == "" {
      assert digits + s == s;
    } else {
      assert (digits + s)[1..] == digits[1..] + s;
      RunRead(digits[1..], s);
    }
  }

  lemma PowerIsRead(x: string, t: string)
    requires Power(x)
    ensures AfterDigits(x, t, false) == Fine
  {
    if x != "" {
      var e: char, sign, digits :| PowerParts(x, e, sign, digits);
      assert x[1..] == sign + digits;
      SignRead(sign, digits);
      assert digits + "" == digits;
      RunRead(digits, "");
    }
  }

  lemma PowerIsMeant(x: string, t: string)
    requires AfterDigits(x, t, false) == Fine
    ensures Power(x)
  {
    if x != "" {
      var y := x[1..];
      var z := Unsigned(y);
      SignSplit(y);
      assert z[..Run(z)] == z;
      assert PowerParts(x, x[0], SignOf(y), z);
    }
  }

  lemma PowerStart(x: string)
    requires Power(x)
    ensures x != "" ==> Exponent(x[0])
  {
  }

  lemma MantissaIsRead(whole: string, fraction: string, after: string, power: string, t: string)
    requires Digits(whole) && Fraction(fraction, after) && whole + after != "" && (power == "" || Exponent(power[0]))
    ensures AfterSign(whole + (fraction + power), t, false) == AfterDigits(power, t, false)
  {
    hide Run, AfterDigits;
    var v := fraction + power;
    var u := whole + v;
    RunRead(whole, v);
    if fraction == "" {
      assert v == power;
    } else {
      assert v[1..] == after + power;
      RunRead(after, power);
      assert v[1 + |after|..] == power;
    }
  }

  lemma NumberIsRead(t: string)
    requires IsNumber(t)
    ensures Problem(t, false) == Fine
  {
    hide Run, AfterDigits, AfterSign;
    var sign, whole, fraction, after, power :| NumberParts(t, sign, whole, fraction, after, power);
    PowerStart(power);
    PowerIsRead(power, t);
    hide Power;
    MantissaIsRead(whole, fraction, after, power, t);
    var u := whole + (fraction + power);
    NoSignFirst(whole, fraction, after, power);
    assert t == sign + u;
    SignRead(sign, u);
    hide Unsigned, SignOf;
    assert t != "";
  }

  lemma NoSignFirst(whole: string, fraction: string, after: string, power: string)
    requires Digits(whole) && Fraction(fraction, after) && whole + after != ""
    ensures var u := whole + (fraction + power); u != "" && !Sign(u[0])
  {
    if whole == "" {
      assert whole + (fraction + power) == "." + (after + power);
    } else {
      assert (whole + (fraction + power))[0] == whole[0];
    }
  }

  lemma FractionIsMeant(v: string) returns (after: string, power: string)
    requires v != "" && v[0] == '.'
    ensures after == v[1..][..Run(v[1..])] && power == v[1 + Run(v[1..])..]
    ensures v == "." + after + power && Digits(after)
  {
    var tail := v[1..];
    var n := Run(tail);
    after, power := tail[..n], v[1 + n..];
    hide Run;
    assert tail[n..] == power;
    assert tail == after + power;
    assert v == "." + tail;
    assert "." + (after + power) == "." + after + power;
  }

  lemma MantissaIsMeant(u: string, t: string)
    returns (whole: string, fraction: string, after: string, power: string)
    requires AfterSign(u, t, false) == Fine
    ensures u == whole + fraction + power && Digits(whole) && Fraction(fraction, after) && whole + after != ""
    ensures AfterDigits(power, t, false) == Fine
  {
    hide AfterDigits;
    RunSplit(u);
    var w := Run(u);
    assert Digits(u[..w]);
    hide Run;
    whole, fraction, after, power := u[..w], "", "", u[w..];
    if power != "" && power[0] == '.' {
      after, power := FractionIsMeant(u[w..]);
      fraction := "." + after;
    }
  }

  lemma NumberIsMeant(t: string)
    requires Problem(t, false) == Fine
    ensures IsNumber(t)
  {
    hide Power, AfterDigits, AfterSign, Fraction;
    SignSplit(t);
    var whole, fraction, after, power := MantissaIsMeant(Unsigned(t), t);
    PowerIsMeant(power, t);
    hide Unsigned, SignOf;
    assert t == SignOf(t) + whole + fraction + power;
    assert NumberParts(t, SignOf(t), whole, fraction, after, power);
  }

  lemma IntegerIsRead(t: string)
    requires IsInteger(t)
    ensures Problem(t, true) == Fine
  {
    var sign, digits :| WholeParts(t, sign, digits)
      && INT64_MIN <= (if sign == "-" then -ValueOf(digits) else ValueOf(digits)) <= INT64_MAX;
    SignRead(sign, digits);
    assert digits + "" == digits;
    RunRead(digits, "");
  }

  lemma IntegerIsMeant(t: string)
    requires Problem(t, true) == Fine
    ensures IsInteger(t)
  {
    SignSplit(t);
    var u := Unsigned(t);
    assert u[..Run(u)] == u;
    assert WholeParts(t, SignOf(t), u);
  }

  /** Accepted as a number, or as an integer, exactly when the text has that shape. */
  lemma FineIffShaped(t: string)
    ensures Problem(t, false) == Fine <==> IsNumber(t)
    ensures Problem(t, true) == Fine <==> IsInteger(t)
  {
    if IsNumber(t) {
      NumberIsRead(t);
    }
    if Problem(t, false) == Fine {
      NumberIsMeant(t);
    }
    if IsInteger(t) {
      IntegerIsRead(t);
    }
    if Problem(t, true) == Fine {
      IntegerIsMeant(t);
    }
  }

  /** What is an integer is a number. */
  lemma IntegersAreNumbers(t: string)
    requires Problem(t, true) == Fine
    ensures Problem(t, false) == Fine
  {
    IntegerIsMeant(t);
    var sign, digits :| WholeParts(t, sign, digits);
    assert sign + digits + "" + "" == t;
    assert NumberParts(t, sign, digits, "", "", "");
    NumberIsRead(t);
  }

  /** An integer that is too large is still a number, and the only kind of digits refused for size. */
  lemma PastRangeIsANumber(t: string)
    ensures Problem(t, true) == PastRange <==> (Digits(Unsigned(t)) && Unsigned(t) != "" && !InRange(t))
    ensures Problem(t, true) == PastRange ==> Problem(t, false) == Fine
  {
    var u := Unsigned(t);
    SignSplit(t);
    if Digits(u) {
      assert u + "" == u;
      RunRead(u, "");
    }
    if Problem(t, true) == PastRange {
      assert u[..Run(u)] == u;
      assert SignOf(t) + u + "" + "" == t;
      assert NumberParts(t, SignOf(t), u, "", "", "");
      NumberIsRead(t);
    }
  }

  /* ---- trimming ---- */

  predicate AllBlank(s: string) { forall i :: 0 <= i < |s| ==> Blank(s[i]) }

  /** Nothing blank at either end. */
  predicate Tight(s: string) { s != "" ==> !Blank(s[0]) && !Blank(s[|s| - 1]) }

  function DropFront(s: string): string { if s != "" && Blank(s[0]) then DropFront(s[1..]) else s }

  function DropBack(s: string): string {
    if s != "" && Blank(s[|s| - 1]) then DropBack(s[..|s| - 1]) else s
  }

  function Trimmed(s: string): string { DropBack(DropFront(s)) }

  lemma {:induction false} DropFrontOf(blanks: string, m: string)
    requires AllBlank(blanks) && (m == "" || !Blank(m[0]))
    ensures DropFront(blanks + m) == m
  {
    if blanks == "" {
      assert blanks + m == m;
    } else {
      assert (blanks + m)[1..] == blanks[1..] + m;
      DropFrontOf(blanks[1..], m);
    }
  }

  lemma {:induction false} DropBackOf(m: string, blanks: string)
    requires AllBlank(blanks) && (m == "" || !Blank(m[|m| - 1]))
    ensures DropBack(m + blanks) == m
  {
    if blanks == "" {
      assert m + blanks == m;
    } else {
      assert (m + blanks)[..|m + blanks| - 1] == m + blanks[..|blanks| - 1];
      DropBackOf(m, blanks[..|blanks| - 1]);
    }
  }

  /** Whatever blanks stand around a tight text, trimming gives that text: it takes all of them and no more,
      and trimming twice is trimming once. */
  lemma TrimmedIsTheMiddle(before: string, m: string, after: string)
    requires AllBlank(before) && AllBlank(after) && Tight(m)
    ensures Trimmed(before + m + after) == m && Trimmed(m) == m
  {
    if m == "" {
      assert before + m + after == (before + after) + "";
      DropFrontOf(before + after, "");
    } else {
      assert before + m + after == before + (m + after);
      DropFrontOf(before, m + after);
      DropBackOf(m, after);
    }
  }

  lemma {:induction false} FrontIsBlank(s: string)
    ensures exists b :: AllBlank(b) && s == b + DropFront(s) && (DropFront(s) == "" || !Blank(DropFront(s)[0]))
  {
    if s != "" && Blank(s[0]) {
      FrontIsBlank(s[1..]);
      var b :| AllBlank(b) && s[1..] == b + DropFront(s[1..]);
      assert s == ([s[0]] + b) + DropFront(s) && AllBlank([s[0]] + b);
    } else {
      assert s == "" + DropFront(s) && AllBlank("");
    }
  }

  lemma {:induction false} BackIsBlank(s: string)
    requires s == "" || !Blank(s[0])
    ensures exists b :: AllBlank(b) && s == DropBack(s) + b
    ensures Tight(DropBack(s))
  {
    if s != "" && Blank(s[|s| - 1]) {
      BackIsBlank(s[..|s| - 1]);
      var b :| AllBlank(b) && s[..|s| - 1] == DropBack(s[..|s| - 1]) + b;
      assert s == DropBack(s) + (b + [s[|s| - 1]]) && AllBlank(b + [s[|s| - 1]]);
    } else {
      assert s == DropBack(s) + "" && AllBlank("");
    }
  }

  /** Every text is blanks, its tight middle, and blanks. */
  lemma TrimmedIsTight(s: string)
    ensures Tight(Trimmed(s))
    ensures exists before, after :: AllBlank(before) && AllBlank(after) && s == before + Trimmed(s) + after
  {
    FrontIsBlank(s);
    var before :| AllBlank(before) && s == before + DropFront(s);
    BackIsBlank(DropFront(s));
    var after :| AllBlank(after) && DropFront(s) == Trimmed(s) + after;
    assert s == before + Trimmed(s) + after;
  }

  lemma DropFrontOnce(s: string, k: nat)
    requires k <= |s|
    ensures k < |s| && Blank(s[k]) ==> DropFront(s[k..]) == DropFront(s[k + 1..])
    ensures k == |s| || !Blank(s[k]) ==> DropFront(s[k..]) == s[k..]
  {
    if k < |s| {
      assert s[k..][1..] == s[k + 1..];
    }
  }

  lemma DropBackOnce(s: string, k: nat)
    requires k <= |s|
    ensures 0 < k && Blank(s[k - 1]) ==> DropBack(s[..k]) == DropBack(s[..k - 1])
    ensures k == 0 || !Blank(s[k - 1]) ==> DropBack(s[..k]) == s[..k]
  {
    if 0 < k {
      assert s[..k][..k - 1] == s[..k - 1];
    }
  }

  /** Blanks at the front are passed over. */
  method TrimFront(t: array<char>, length: nat) returns (start: nat)
    requires length < t.Length && t[length] == NUL
    ensures start <= length && t[start..length] == DropFront(t[..length])
  {
    hide DropFront;
    ghost var text := t[..length];
    start := 0;
    assert text[0..] == text;
    while Blank(t[start])
      invariant start <= length && DropFront(text[start..]) == DropFront(text)
      decreases length - start
    {
      assert t[start] == text[start];
      DropFrontOnce(text, start);
      start := start + 1;
    }
    assert start < length ==> t[start] == text[start];
    DropFrontOnce(text, start);
    assert t[start..length] == text[start..];
  }

  /** Blanks at the back are overwritten with NULs. */
  method TrimBack(t: array<char>, start: nat, length: nat) returns (end: nat)
    requires start <= length < t.Length && t[length] == NUL
    modifies t
    ensures start <= end <= length && t[end] == NUL && t[start..end] == DropBack(old(t[start..length]))
    ensures forall i :: 0 <= i < end || length <= i < t.Length ==> t[i] == old(t[i])
  {
    hide DropBack;
    ghost var s := t[start..length];
    end := length;
    assert s[..end - start] == s;
    while end > start && Blank(t[end - 1])
      invariant start <= end <= length && t[end] == NUL
      invariant DropBack(s[..end - start]) == DropBack(s)
      invariant forall i :: 0 <= i < end || length <= i < t.Length ==> t[i] == old(t[i])
    {
      assert s[end - 1 - start] == t[end - 1];
      DropBackOnce(s, end - start);
      end := end - 1;
      t[end] := NUL;
    }
    assert end > start ==> s[end - 1 - start] == t[end - 1];
    DropBackOnce(s, end - start);
    assert t[start..end] == s[..end - start];
  }

  /** `gb_number_text_trim`: in place; the answer is where the trimmed text starts and, by its NUL, ends. */
  method Trim(t: array<char>, length: nat) returns (start: nat, end: nat)
    requires length < t.Length && t[length] == NUL
    modifies t
    ensures start <= end <= length && t[end] == NUL && t[start..end] == Trimmed(old(t[..length]))
    ensures forall i :: 0 <= i < end || length <= i < t.Length ==> t[i] == old(t[i])
  {
    start := TrimFront(t, length);
    end := TrimBack(t, start, length);
  }

  /** Walks over digits, counting them. */
  method PassDigits(t: string, from: nat) returns (c: nat)
    requires from <= |t|
    ensures c == from + Run(t[from..])
  {
    c := from;
    while Digit(At(t, c))
      invariant from <= c <= |t| && c + Run(t[c..]) == from + Run(t[from..])
      decreases |t| - c
    {
      assert t[c..][1..] == t[c + 1..];
      c := c + 1;
    }
  }

  /** What may follow the digits: an exponent, then nothing. */
  method AfterDigitsByWalk(t: string, from: nat, integer: bool) returns (v: Verdict)
    requires from <= |t| && NoNul(t)
    ensures v == AfterDigits(t[from..], t, integer)
  {
    hide Run, InRange;
    var c := from;
    ghost var x := t[c..];
    if !integer && Exponent(At(t, c)) {
      c := c + 1;
      assert t[c..] == x[1..];
      if Sign(At(t, c)) {
        c := c + 1;
      }
      ghost var z := t[c..];
      assert z == Unsigned(x[1..]);
      RunIsNone(z);
      if !Digit(At(t, c)) {
        return NotDigits;
      }
      var d := PassDigits(t, c);
      assert t[d..] == z[Run(z)..];
      c := d;
    }
    if Blank(At(t, c)) {
      return SpaceInside;
    }
    if At(t, c) != NUL {
      return if integer && Exponent(At(t, c)) then NotWholeDigits else NotDigits;
    }
    return if integer && !InRange(t) then PastRange else Fine;
  }

  /** `gb_number_text_problem`; no text stands for one that held a NUL. */
  method ProblemByWalk(text: TextOrNul, integer: bool) returns (v: Verdict)
    requires text.Text? ==> NoNul(text.t)
    ensures text.HeldNul? ==> v == HoldsNul
    ensures text.Text? ==> v == Problem(text.t, integer)
  {
    hide Run, AfterDigits;
    if text.HeldNul? {
      return HoldsNul;
    }
    var t := text.t;
    if At(t, 0) == NUL {
      return Empty;
    }
    var c: nat := if Sign(At(t, 0)) then 1 else 0;
    assert t[c..] == Unsigned(t);
    if At(t, c) == NUL {
      return SignOnly;
    }
    ghost var u := t[c..];
    var from := c;
    c := PassDigits(t, c);
    var digits := c - from;
    ghost var w := t[c..];
    assert w == u[Run(u)..];
    if At(t, c) == '.' || At(t, c) == ',' {
      if integer || At(t, c) == ',' {
        return if integer then NotWhole else NotPlain;
      }
      from := c + 1;
      assert t[from..] == w[1..];
      c := PassDigits(t, from);
      assert t[c..] == w[1 + Run(w[1..])..];
      digits := digits + (c - from);
    }
    if digits == 0 {
      return NotDigits;
    }
    v := AfterDigitsByWalk(t, c, integer);
  }

  datatype TextOrNul = HeldNul | Text(t: string)

  lemma RunIsNone(z: string)
    ensures Run(z) == 0 <==> z == "" || !Digit(z[0])
  {
  }
}
