/**
 * The marker-navigation rule: which diagnostic the cursor jumps to, given the
 * filtered diagnostics of the active document, the cursor, a direction, the
 * `loop` flag and the last position jumped to.
 */
module Navigation {
  import opened Wrappers
  import opened Positions
  import opened Markers

  datatype Direction = Next | Prev

  /** Documents are identified by their URI string. */
  type Uri = string

  /** The navigator's memory: where it last moved the cursor, and in which document. */
  datatype LastPosition = LastPosition(uri: Uri, position: Position)

  /** What a call decides: no target (returns false), stay put (returns true), or move. */
  datatype Outcome = NotFound | Stay | MoveTo(target: Position)

  // ---------------------------------------------------------------------------
  // The two step functions of the scan

  /**
   * `getCloserNext`: takes `current` when it starts at or after the cursor and
   * strictly before the best so far; otherwise keeps the best so far.
   */
  function CloserNext(cursor: Position, current: Diagnostic, soFar: Option<Diagnostic>): (r: Option<Diagnostic>)
    ensures r == Some(current) || r == soFar
    ensures r != soFar ==> IsAfterOrEqual(current.start, cursor)
    ensures r != soFar && soFar.Some? ==> IsBefore(current.start, soFar.value.start)
    ensures IsAfterOrEqual(current.start, cursor) && (soFar.None? || IsBefore(current.start, soFar.value.start)) ==>
      r == Some(current)
  {
    if IsAfterOrEqual(current.start, cursor) && (soFar.None? || IsBefore(current.start, soFar.value.start)) then
      Some(current)
    else
      soFar
  }

  /**
   * `getCloserPrev`: takes `current` when it starts at or before the cursor and
   * strictly after the best so far; otherwise keeps the best so far.
   */
  function CloserPrev(cursor: Position, current: Diagnostic, soFar: Option<Diagnostic>): (r: Option<Diagnostic>)
    ensures r == Some(current) || r == soFar
    ensures r != soFar ==> IsBeforeOrEqual(current.start, cursor)
    ensures r != soFar && soFar.Some? ==> IsAfter(current.start, soFar.value.start)
    ensures IsBeforeOrEqual(current.start, cursor) && (soFar.None? || IsAfter(current.start, soFar.value.start)) ==>
      r == Some(current)
  {
    if IsBeforeOrEqual(current.start, cursor) && (soFar.None? || IsAfter(current.start, soFar.value.start)) then
      Some(current)
    else
      soFar
  }

  /**
   * One step of the scan in the given direction: `current` replaces the best so
   * far exactly when it is on the requested side of the cursor and strictly
   * closer than the best so far (or there is none yet).
   */
  function Step(dir: Direction, cursor: Position, current: Diagnostic, soFar: Option<Diagnostic>): (r: Option<Diagnostic>)
    ensures r == Some(current) || r == soFar
    ensures (OnSide(current.start, cursor, dir) && (soFar.None? || Closer(current.start, soFar.value.start, dir)))
            <==> r == Some(current) && r != soFar
  {
    if dir == Next then CloserNext(cursor, current, soFar) else CloserPrev(cursor, current, soFar)
  }

  // ---------------------------------------------------------------------------
  // What the scan is meant to find

  /** The scan skips every marker that starts exactly at the last position. */
  predicate Skipped(d: Diagnostic, skip: Option<Position>) {
    skip.Some? && d.start == skip.value
  }

  /** `p` is on the requested side of the cursor; both comparisons are inclusive. */
  predicate OnSide(p: Position, cursor: Position, dir: Direction) {
    if dir == Next then IsAfterOrEqual(p, cursor) else IsBeforeOrEqual(p, cursor)
  }

  /** A marker the scan may choose. */
  predicate Eligible(d: Diagnostic, cursor: Position, dir: Direction, skip: Option<Position>) {
    !Skipped(d, skip) && OnSide(d.start, cursor, dir)
  }

  /** `a` is strictly closer than `b` in the scan's sense: before it going forward, after it going back. */
  predicate Closer(a: Position, b: Position, dir: Direction) {
    if dir == Next then IsBefore(a, b) else IsAfter(a, b)
  }

  /** The position of the last marker skipped by the scan, if any. */
  function SkipOf(lp: Option<LastPosition>): Option<Position> {
    if lp.Some? then Some(lp.value.position) else None
  }

  // ---------------------------------------------------------------------------
  // The scan as a function: the result of the `for` loop after the whole list

  /** The value of `next` after the loop has visited every marker of `ds` in order. */
  function ScanMarkers(ds: seq<Diagnostic>, cursor: Position, dir: Direction, skip: Option<Position>): (r: Option<Diagnostic>)
    ensures r.Some? ==> r.value in ds && Eligible(r.value, cursor, dir, skip)
    decreases |ds|
  {
    if ds == [] then None
    else
      var best := ScanMarkers(ds[..|ds| - 1], cursor, dir, skip);
      var d := ds[|ds| - 1];
      assert ds == ds[..|ds| - 1] + [d];
      if Skipped(d, skip) then best else Step(dir, cursor, d, best)
  }

  /**
   * The scan finds a marker exactly when some marker is eligible, the marker it
   * finds is eligible, and no eligible marker is strictly closer to the cursor.
   */
  lemma {:induction false} ScanFindsClosest(ds: seq<Diagnostic>, cursor: Position, dir: Direction, skip: Option<Position>)
    ensures ScanMarkers(ds, cursor, dir, skip).None? <==> forall d :: d in ds ==> !Eligible(d, cursor, dir, skip)
    ensures ScanMarkers(ds, cursor, dir, skip).Some? ==>
      var best := ScanMarkers(ds, cursor, dir, skip).value;
      best in ds && Eligible(best, cursor, dir, skip) &&
      forall d :: d in ds && Eligible(d, cursor, dir, skip) ==> !Closer(d.start, best.start, dir)
    decreases |ds|
  {
    if ds != [] {
      var front := ds[..|ds| - 1];
      var d := ds[|ds| - 1];
      assert ds == front + [d];
      assert forall x :: x in ds <==> x in front || x == d;
      ScanFindsClosest(front, cursor, dir, skip);
      var best := ScanMarkers(front, cursor, dir, skip);
      assert ds[..|ds| - 1] == front;
      assert d in ds;
      if Eligible(d, cursor, dir, skip) {
        assert ScanMarkers(ds, cursor, dir, skip).Some?;
      }
    }
  }

  /**
   * Among markers with the same closest start, the first one met wins: every
   * eligible marker before the chosen one in the list is strictly farther away.
   */
  lemma {:induction false} ScanFirstWins(ds: seq<Diagnostic>, cursor: Position, dir: Direction, skip: Option<Position>)
    requires ScanMarkers(ds, cursor, dir, skip).Some?
    ensures exists i :: (0 <= i < |ds| && ds[i] == ScanMarkers(ds, cursor, dir, skip).value &&
      forall j :: 0 <= j < i && Eligible(ds[j], cursor, dir, skip) ==>
        Closer(ScanMarkers(ds, cursor, dir, skip).value.start, ds[j].start, dir))
    decreases |ds|
  {
    var front := ds[..|ds| - 1];
    var d := ds[|ds| - 1];
    var best := ScanMarkers(front, cursor, dir, skip);
    var r := ScanMarkers(ds, cursor, dir, skip).value;
    if best.Some? && r == best.value {
      ScanFirstWins(front, cursor, dir, skip);
      var i :| 0 <= i < |front| && front[i] == r &&
        forall j :: 0 <= j < i && Eligible(front[j], cursor, dir, skip) ==> Closer(r.start, front[j].start, dir);
      assert ds[i] == r;
      assert forall j :: 0 <= j < i ==> ds[j] == front[j];
    } else {
      ScanFindsClosest(front, cursor, dir, skip);
      assert ds[|ds| - 1] == r;
      forall j | 0 <= j < |ds| - 1 && Eligible(ds[j], cursor, dir, skip)
        ensures Closer(r.start, ds[j].start, dir)
      {
        assert ds[j] == front[j];
        assert front[j] in front;
      }
    }
  }

  /**
   * The loop of `gotoMarkerInFile`: one pass over the markers, skipping those at
   * the last position and keeping the closest one on the requested side.
   */
  method ScanForCloser(ds: seq<Diagnostic>, cursor: Position, dir: Direction, skip: Option<Position>)
    returns (next: Option<Diagnostic>)
    ensures next == ScanMarkers(ds, cursor, dir, skip)
    ensures next.None? <==> forall d :: d in ds ==> !Eligible(d, cursor, dir, skip)
    ensures next.Some? ==> next.value in ds && Eligible(next.value, cursor, dir, skip)
    ensures next.Some? ==> forall d :: d in ds && Eligible(d, cursor, dir, skip) ==> !Closer(d.start, next.value.start, dir)
  {
    next := None;
    for i := 0 to |ds|
      invariant next == ScanMarkers(ds[..i], cursor, dir, skip)
    {
      assert ds[..i + 1][..i] == ds[..i];
      if Skipped(ds[i], skip) {
        continue;
      }
      next := Step(dir, cursor, ds[i], next);
    }
    assert ds[..|ds|] == ds;
    ScanFindsClosest(ds, cursor, dir, skip);
  }

  // ---------------------------------------------------------------------------
  // Wrap-around and the whole decision

  /**
   * The wrap-around target: the first marker of the sorted list going forward,
   * the last one going back; no marker is strictly beyond it in that direction.
   */
  function Wraparound(filtered: seq<Diagnostic>, dir: Direction): (w: Diagnostic)
    requires |filtered| > 0
    ensures w in filtered
    ensures forall d :: d in filtered ==> !Closer(d.start, w.start, dir)
  {
    SortedFirstIsEarliest(filtered);
    SortedLastIsLatest(filtered);
    var sorted := SortByStart(filtered);
    if dir == Next then sorted[0] else sorted[|sorted| - 1]
  }

  /** The `lastPosition` reset: the memory survives only while the same document stays active. */
  function ResetForDocument(lp: Option<LastPosition>, uri: Uri): (r: Option<LastPosition>)
    ensures r.Some? ==> r == lp && r.value.uri == uri
    ensures lp.Some? && lp.value.uri == uri ==> r == lp
  {
    if lp.Some? && lp.value.uri == uri then lp else None
  }

  /**
   * The decision `gotoMarkerInFile` takes for a non-empty or empty list of
   * filtered markers once `lastPosition` has been reset for the document.
   * It fails exactly when there are no markers, or when looping is off and
   * no marker is eligible.
   */
  function Select(filtered: seq<Diagnostic>, lp: Option<LastPosition>, cursor: Position, dir: Direction, loop: bool): (r: Outcome)
    ensures r.NotFound? <==> |filtered| == 0 || (!loop && forall d :: d in filtered ==> !Eligible(d, cursor, dir, SkipOf(lp)))
  {
    if |filtered| == 0 then NotFound
    else
      var found := ScanMarkers(filtered, cursor, dir, SkipOf(lp));
      ScanFindsClosest(filtered, cursor, dir, SkipOf(lp));
      if found.None? && loop then
        var w := Wraparound(filtered, dir);
        if lp.Some? && lp.value.position == w.start && cursor == w.start then Stay else MoveTo(w.start)
      else if found.None? then NotFound
      else MoveTo(found.value.start)
  }

  /**
   * The body of `gotoMarkerInFile` after the reset: fail on an empty list, scan,
   * wrap around to the sorted list's first or last marker when the scan finds
   * nothing and looping is on, and stay put in the single-marker case.
   */
  method ChooseTarget(diagnostics: seq<Diagnostic>, lastPosition: Option<LastPosition>, cursor: Position,
                      direction: Direction, loop: bool)
    returns (outcome: Outcome)
    ensures outcome == Select(diagnostics, lastPosition, cursor, direction, loop)
    ensures outcome.MoveTo? ==> exists d :: d in diagnostics && d.start == outcome.target
    ensures outcome.Stay? ==> lastPosition.Some? && cursor == lastPosition.value.position
  {
    if |diagnostics| == 0 {
      return NotFound;
    }
    var next := ScanForCloser(diagnostics, cursor, direction, SkipOf(lastPosition));
    if next.None? && loop {
      var sortedMarkers := SortByStart(diagnostics);
      next := Some(if direction == Next then sortedMarkers[0] else sortedMarkers[|sortedMarkers| - 1]);
      assert next.value == Wraparound(diagnostics, direction);
      if lastPosition.Some? && lastPosition.value.position == next.value.start && cursor == next.value.start {
        return Stay;
      }
    }
    if next.None? {
      return NotFound;
    }
    return MoveTo(next.value.start);
  }

  /**
   * When some marker is eligible, the call moves to the closest eligible start
   * on the requested side, which is never the last position.
   */
  lemma SelectMovesToClosest(filtered: seq<Diagnostic>, lp: Option<LastPosition>, cursor: Position, dir: Direction, loop: bool)
    requires exists d :: d in filtered && Eligible(d, cursor, dir, SkipOf(lp))
    ensures Select(filtered, lp, cursor, dir, loop).MoveTo?
    ensures var p := Select(filtered, lp, cursor, dir, loop).target;
      OnSide(p, cursor, dir) &&
      (lp.Some? ==> p != lp.value.position) &&
      (exists d :: d in filtered && d.start == p) &&
      forall d :: d in filtered && Eligible(d, cursor, dir, SkipOf(lp)) ==> !Closer(d.start, p, dir)
  {
    ScanFindsClosest(filtered, cursor, dir, SkipOf(lp));
  }

  /**
   * When no marker is eligible and looping is on, the call wraps to the
   * extreme start among all markers (the last position is not excluded), and
   * stays put instead when that start is both the last position and the cursor.
   */
  lemma SelectWrapsAround(filtered: seq<Diagnostic>, lp: Option<LastPosition>, cursor: Position, dir: Direction)
    requires |filtered| > 0
    requires forall d :: d in filtered ==> !Eligible(d, cursor, dir, SkipOf(lp))
    ensures exists w :: (w in filtered && (forall d :: d in filtered ==> !Closer(d.start, w.start, dir)) &&
      Select(filtered, lp, cursor, dir, true) ==
        if lp.Some? && lp.value.position == w.start && cursor == w.start then Stay else MoveTo(w.start))
  {
    ScanFindsClosest(filtered, cursor, dir, SkipOf(lp));
    var w := Wraparound(filtered, dir);
    assert w in filtered;
  }

  /**
   * The single-marker guard: with every marker at `p`, the cursor at `p` and
   * `p` remembered as the last position, a looping call reports success
   * without moving.
   */
  lemma SingleMarkerStays(filtered: seq<Diagnostic>, uri: Uri, p: Position, dir: Direction)
    requires |filtered| > 0
    requires forall d :: d in filtered ==> d.start == p
    ensures Select(filtered, Some(LastPosition(uri, p)), p, dir, true) == Stay
  {
    var lp := Some(LastPosition(uri, p));
    ScanFindsClosest(filtered, p, dir, SkipOf(lp));
    var w := Wraparound(filtered, dir);
    assert w.start == p;
  }

  /**
   * Repeating a command after it moved to `p` (cursor still at `p`, `p`
   * remembered) steps past `p`: it lands on the closest start strictly beyond
   * `p` whenever there is one.
   */
  lemma RepeatStepsPast(filtered: seq<Diagnostic>, uri: Uri, p: Position, dir: Direction, loop: bool)
    requires exists d :: d in filtered && Closer(p, d.start, dir)
    ensures var r := Select(filtered, Some(LastPosition(uri, p)), p, dir, loop);
      r.MoveTo? && Closer(p, r.target, dir) &&
      forall d :: d in filtered && Closer(p, d.start, dir) ==> !Closer(d.start, r.target, dir)
  {
    var lp := Some(LastPosition(uri, p));
    var d :| d in filtered && Closer(p, d.start, dir);
    assert Eligible(d, p, dir, SkipOf(lp));
    SelectMovesToClosest(filtered, lp, p, dir, loop);
  }

  /**
   * After a document switch the old position is forgotten, so a marker in the
   * new document at the same position is not skipped.
   */
  lemma DocumentSwitchForgets(lp: Option<LastPosition>, uri: Uri, d: Diagnostic)
    requires lp.Some? && lp.value.uri != uri
    ensures !Skipped(d, SkipOf(ResetForDocument(lp, uri)))
  {
  }
}
