/** The growable list of diagnostics (`src/diagnostics.c`). */
module DiagnosticSink {
  import opened Wrappers
  import opened JsonText

  /** `gb_diagnostics`. */
  class Sink {
    var items: array<Diagnostic>
    var count: nat

    ghost predicate Valid()
      reads this
    {
      count <= items.Length && (items.Length == 0 || (8 <= items.Length && items.Length <= 8 + 2 * count))
    }

    /** The records kept. */
    ghost function Contents(): seq<Diagnostic>
      requires Valid()
      reads this, items
    {
      items[..count]
    }

    constructor ()
      ensures Valid() && Contents() == [] && fresh(items)
    {
      items := new Diagnostic[0];
      count := 0;
    }

    /** `gb_diagnostics_add`: nothing kept is touched, a missing message is kept as an empty one, and the
        capacity stays within twice the count and eight. */
    method Add(severity: Severity, code: Code, subcode: int, path: Option<string>, span: Span, message: Option<string>)
      requires Valid()
      modifies this, items
      ensures Valid() && (items == old(items) || fresh(items))
      ensures var text := if message.Some? then message else Some("");
        Contents() == old(Contents()) + [Diagnostic(severity, code, subcode, path, span, text)]
    {
      var d := Diagnostic(severity, code, subcode, path, span, if message.Some? then message else Some(""));
      ghost var was := Contents();
      if count == items.Length {
        var next := if items.Length > 0 then items.Length * 2 else 8;
        var grown := new Diagnostic[next](_ => d);
        for i := 0 to count
          invariant items == old(items) && count == old(count) && items[..count] == was
          invariant forall k :: 0 <= k < i ==> grown[k] == was[k]
        {
          grown[i] := items[i];
        }
        items := grown;
      }
      assert items[..count] == was;
      items[count] := d;
      count := count + 1;
      assert items[..count] == was + [d];
    }
  }
}
