/**
 * Concrete scenarios of the navigation rule: wrap-around, no wrap-around, the
 * inclusive comparison with the cursor, a document switch, and the single
 * marker case driven through the navigator object twice.
 */
module Scenarios {
  import opened Wrappers
  import opened Positions
  import opened Markers
  import opened Navigation
  import opened Extension

  function ErrorAtLine(line: nat): Diagnostic {
    Diagnostic(Error, Position(line, 0))
  }

  /** Markers on lines 5, 10 and 20, cursor on line 25: going forward wraps to line 5. */
  lemma WrapsToFirst()
    ensures Select([ErrorAtLine(5), ErrorAtLine(10), ErrorAtLine(20)], None, Position(25, 0), Next, true)
            == MoveTo(Position(5, 0))
  {
    var ds := [ErrorAtLine(5), ErrorAtLine(10), ErrorAtLine(20)];
    SelectWrapsAround(ds, None, Position(25, 0), Next);
    var w :| w in ds && (forall d :: d in ds ==> !Closer(d.start, w.start, Next)) &&
      Select(ds, None, Position(25, 0), Next, true) == MoveTo(w.start);
    assert !Closer(ds[0].start, w.start, Next);
  }

  /** The same markers and cursor without looping: nothing to move to. */
  lemma NoWrapFails()
    ensures Select([ErrorAtLine(5), ErrorAtLine(10), ErrorAtLine(20)], None, Position(25, 0), Next, false)
            == NotFound
  {
    var ds := [ErrorAtLine(5), ErrorAtLine(10), ErrorAtLine(20)];
    forall d | d in ds ensures !Eligible(d, Position(25, 0), Next, None) {
    }
  }

  /** Markers on lines 3, 7 and 12, cursor on line 7: going back stays on line 7 (inclusive). */
  lemma PrevIsInclusive()
    ensures Select([ErrorAtLine(3), ErrorAtLine(7), ErrorAtLine(12)], None, Position(7, 0), Prev, true)
            == MoveTo(Position(7, 0))
  {
    var ds := [ErrorAtLine(3), ErrorAtLine(7), ErrorAtLine(12)];
    assert ds[1] in ds && Eligible(ds[1], Position(7, 0), Prev, None);
    SelectMovesToClosest(ds, None, Position(7, 0), Prev, true);
  }

  /** A marker at the remembered position of another document is a valid target. */
  lemma SwitchedDocumentDoesNotSkip()
    ensures Select([ErrorAtLine(7)], ResetForDocument(Some(LastPosition("a.ts", Position(7, 0))), "b.ts"),
                   Position(7, 0), Next, true)
            == MoveTo(Position(7, 0))
  {
    var lp := ResetForDocument(Some(LastPosition("a.ts", Position(7, 0))), "b.ts");
    assert lp == None;
    assert Eligible(ErrorAtLine(7), Position(7, 0), Next, SkipOf(lp));
    SelectMovesToClosest([ErrorAtLine(7)], lp, Position(7, 0), Next, true);
  }

  /** One error in the file: the first command moves onto it, the second one stays put and still succeeds. */
  method SingleMarkerTwice() returns (first: bool, second: bool, cursor: Position, commands: nat)
    ensures first && second
    ensures cursor == Position(4, 0)
    ensures commands == 3
  {
    var nav := new MarkerNavigator();
    var editor := new Editor("a.ts", Selection(Position(0, 0), Position(0, 0)));
    var host := map["a.ts" := [ErrorAtLine(4), Diagnostic(Hint, Position(9, 0))]];
    assert FilterBySeverity(host["a.ts"], ErrorsAndWarnings) == [ErrorAtLine(4)];

    var ok := nav.GotoMarkerInFile(editor, host, ErrorsAndWarnings, Next, true);
    assert Eligible(ErrorAtLine(4), Position(0, 0), Next, None);
    SelectMovesToClosest([ErrorAtLine(4)], None, Position(0, 0), Next, true);
    assert ok && editor.selection.Start() == Position(4, 0);
    first := ok;
    assert nav.lastPosition == Some(LastPosition("a.ts", Position(4, 0)));

    ok := nav.GotoMarkerInFile(editor, host, ErrorsAndWarnings, Next, true);
    SingleMarkerStays([ErrorAtLine(4)], "a.ts", Position(4, 0), Next);
    assert ok && editor.selection.Start() == Position(4, 0);
    second := ok;
    cursor := editor.selection.Start();
    commands := |nav.issued|;
  }
}
