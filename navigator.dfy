/**
 * The extension's command handler: the `lastPosition` session memory, the
 * active editor whose selection it moves, and `gotoMarkerInFile` itself.
 */
module Extension {
  import opened Wrappers
  import opened Positions
  import opened Markers
  import opened Navigation

  /** An editor selection; only its start (the earlier end) is read. */
  datatype Selection = Selection(anchor: Position, active: Position) {
    function Start(): (p: Position)
      ensures p == anchor || p == active
      ensures IsBeforeOrEqual(p, anchor) && IsBeforeOrEqual(p, active)
    {
      if IsBefore(active, anchor) then active else anchor
    }
  }

  /** The editor commands issued after a successful move, in their order. */
  datatype HostCommand =
    | CloseMarkersNavigation
    | GoToLocations(uri: Uri, positions: seq<Position>)
    | ShowHover

  /** The diagnostics the host reports for a document: its list if it has one, none otherwise. */
  function DiagnosticsOf(host: map<Uri, seq<Diagnostic>>, uri: Uri): (ds: seq<Diagnostic>)
    ensures uri in host ==> ds == host[uri]
    ensures uri !in host ==> ds == []
  {
    if uri in host then host[uri] else []
  }

  /** The active text editor: the URI of its document and its current selection. */
  class Editor {
    const uri: Uri
    var selection: Selection

    constructor (uri: Uri, selection: Selection)
      ensures this.uri == uri && this.selection == selection
    {
      this.uri := uri;
      this.selection := selection;
    }
  }

  /**
   * The state `activate` keeps for its commands: the last position moved to,
   * and the editor commands issued so far.
   */
  class MarkerNavigator {
    var lastPosition: Option<LastPosition>
    var issued: seq<HostCommand>

    constructor ()
      ensures lastPosition == None && issued == []
    {
      lastPosition := None;
      issued := [];
    }

    /**
     * `gotoMarkerInFile`: with no active editor, fails and changes nothing.
     * Otherwise forgets `lastPosition` if it belongs to another document,
     * then follows `Select` on the filtered diagnostics: on a move, remembers
     * the target, puts an empty selection there and issues the three editor
     * commands; on stay or failure, leaves the selection alone.
     */
    method GotoMarkerInFile(editor: Editor?, host: map<Uri, seq<Diagnostic>>, filter: seq<Severity>,
                            direction: Direction, loop: bool)
      returns (ok: bool)
      modifies this, editor
      ensures editor == null ==> !ok && lastPosition == old(lastPosition) && issued == old(issued)
      ensures editor != null ==>
        var lp := ResetForDocument(old(lastPosition), editor.uri);
        var outcome := Select(FilterBySeverity(DiagnosticsOf(host, editor.uri), filter), lp,
                              old(editor.selection).Start(), direction, loop);
        && ok == !outcome.NotFound?
        && lastPosition == (if outcome.MoveTo? then Some(LastPosition(editor.uri, outcome.target)) else lp)
        && editor.selection == (if outcome.MoveTo? then Selection(outcome.target, outcome.target) else old(editor.selection))
        && issued == old(issued) + (if outcome.MoveTo?
                                    then [CloseMarkersNavigation, GoToLocations(editor.uri, [outcome.target]), ShowHover]
                                    else [])
    {
      if editor == null {
        return false;
      }
      var diagnostics := FilterBySeverity(DiagnosticsOf(host, editor.uri), filter);
      if lastPosition.None? || lastPosition.value.uri != editor.uri {
        lastPosition := None;
      }
      var outcome := ChooseTarget(diagnostics, lastPosition, editor.selection.Start(), direction, loop);
      match outcome
      case NotFound =>
        return false;
      case Stay =>
        return true;
      case MoveTo(target) =>
        lastPosition := Some(LastPosition(editor.uri, target));
        editor.selection := Selection(target, target);
        issued := issued + [CloseMarkersNavigation, GoToLocations(editor.uri, [target]), ShowHover];
        return true;
    }
  }
}
