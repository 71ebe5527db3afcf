# Go to error/warning marker: a verified model of the navigation rule

This project models the core of the editor extension "goto-error-hover". Its two commands move the text cursor to the next or previous error/warning marker of the active document. The model covers the rule in `gotoMarkerInFile` and its helpers `getCloserNext`, `getCloserPrev` and `getMarkersSorted`. It also covers the one piece of session state that the rule keeps between calls, `lastPosition`.

Positions are `(line, character)` pairs ordered lexicographically, as the editor host orders them. A diagnostic is a severity plus the start of its range. Documents are URI strings compared for equality. The host's answers are inputs: the optional active editor and a map from URI to diagnostics.

Files:

- `positions.dfy`: module `Wrappers` (an `Option` type) and module `Positions` (the order and the sort comparator).
- `markers.dfy`: module `Markers` (severities, the severity filter, and the ascending sort by start).
- `navigation.dfy`: module `Navigation`.
  - The step functions.
  - The scan, once as the function `ScanMarkers` and once as the loop method `ScanForCloser`, which is proved equal to that function.
  - Wrap-around, the `lastPosition` reset, and the decision `Select` that a call takes.
  - The method `ChooseTarget`, which is the part of `gotoMarkerInFile` that reads no editor state.
  - The lemmas that state what that decision means.
- `navigator.dfy`: module `Extension`. The class `MarkerNavigator` holds `lastPosition`. Its method `GotoMarkerInFile` changes that field and the editor's selection, and is proved to follow `Select`.
- `scenarios.dfy`: concrete scenarios. These are wrap-around, no wrap-around, the inclusive comparison with the cursor, a document switch, and two calls on a file with one error.

Three points of the code's behaviour the model keeps:

- **Ties.** When several markers share the closest start, the code keeps the first one it meets, because `getCloserNext` uses a strict `isBefore` and `getCloserPrev` a strict `isAfter`. The model does the same (`ScanFirstWins`).
- **Reset order.** The document-switch reset of `lastPosition` runs before the check for an empty marker list, so a call on a document with no markers still forgets the old position. It does not run when there is no active editor.
- **Filter.** The severity filter is a parameter of `gotoMarkerInFile`. Both commands pass `[Error, Warning]` (`Markers.ErrorsAndWarnings`).

## Model

| member | source | states |
|---|---|---|
| Positions.Compare | src/extension.ts:8-13 | The sort comparator is negative exactly when the first position is before the second, zero exactly when they are equal, and positive exactly when it is after. |
| Positions.CompareAntisymmetric | src/extension.ts:8-13 | Swapping the arguments of the comparator negates its result. |
| Positions.CompareTransitive | src/extension.ts:8-13 | The comparator's "not after" relation is transitive, so it is a valid sort order. |
| Markers.FilterBySeverity | src/extension.ts:59-61 | A diagnostic is kept exactly when it is in the input and its severity is in the filter, and the result is no longer than the input. The kept diagnostics stay in their input order (a subsequence), which is the order the scan visits, and every copy of a kept diagnostic is kept: each occurs as often in the result as in the input when its severity passes, and not at all otherwise. |
| Markers.SortByStart | src/extension.ts:7-14 | `getMarkersSorted` returns a permutation of its input (same multiset and length) that is ascending by start. |
| Markers.InsertSorted | src/extension.ts:7-14 | Inserting a marker into a list sorted by start keeps the list sorted. |
| Markers.SortedFirstIsEarliest | src/extension.ts:83-86 | The first element of the sorted list is an input marker that starts no later than any input marker. |
| Markers.SortedLastIsLatest | src/extension.ts:83-87 | The last element of the sorted list is an input marker that starts no earlier than any input marker. |
| Navigation.CloserNext | src/extension.ts:31-44 | `getCloserNext` returns either the current marker or the best so far. It returns the current marker exactly when it starts at or after the cursor and strictly before the best so far, or there is no best so far. |
| Navigation.CloserPrev | src/extension.ts:16-29 | `getCloserPrev` returns either the current marker or the best so far. It returns the current marker exactly when it starts at or before the cursor and strictly after the best so far, or there is no best so far. |
| Navigation.Step | src/extension.ts:76-79 | The direction dispatch between the two step functions. The current marker replaces the best so far exactly when it is on the requested side of the cursor and strictly closer than the best so far, or there is none yet; otherwise the best so far is kept. |
| Navigation.ScanMarkers | src/extension.ts:71-80 | The value of `next` after the loop over all markers. Whatever it holds is one of the markers, not at the last position and on the requested side of the cursor. |
| Navigation.ScanFindsClosest | src/extension.ts:71-80 | The scan finds nothing exactly when no marker is eligible. An eligible marker is one that is not at the last position and is on the requested side of the cursor, both sides inclusive. When the scan finds a marker, that marker is eligible and no eligible marker is strictly closer. |
| Navigation.ScanFirstWins | src/extension.ts:71-80 | Among markers tied for the closest start, the scan keeps the first one in list order. Every eligible marker before it is strictly farther away. |
| Navigation.ScanForCloser | src/extension.ts:71-80 | The loop computes the scan function. Its result is absent exactly when no marker is eligible, and otherwise is an eligible marker with no eligible marker strictly closer. |
| Navigation.Wraparound | src/extension.ts:82-88 | The wrap-around target is one of the filtered markers, and no filtered marker lies strictly beyond it. Going forward it has the smallest start; going back it has the largest. It does not exclude the last position. |
| Navigation.ResetForDocument | src/extension.ts:63-65 | `lastPosition` survives only when it was recorded for the active document; otherwise it becomes null. |
| Navigation.Select | src/extension.ts:66-101 | A call fails exactly when there are no filtered markers, or when looping is off and no marker is eligible. |
| Navigation.ChooseTarget | src/extension.ts:66-101 | The method computes `Select`. A move targets the start of one of the markers. Staying put happens only when the cursor is at the remembered last position. |
| Navigation.SelectMovesToClosest | src/extension.ts:71-104 | When some marker is eligible, the call moves to the start of an eligible marker on the requested side. That start is never the last position, and no eligible marker is strictly closer. |
| Navigation.SelectWrapsAround | src/extension.ts:82-97 | When no marker is eligible and looping is on, the target is the extreme start among all markers. The call stays put exactly when that start equals both the last position and the cursor; otherwise it moves there. |
| Navigation.SingleMarkerStays | src/extension.ts:89-96 | When every marker starts at p, the cursor is at p and p is the last position, a looping call reports success without moving. |
| Navigation.RepeatStepsPast | src/extension.ts:71-104 | Repeating a command with the cursor at the remembered position p lands strictly beyond p, on the closest such start, whenever one exists. |
| Navigation.DocumentSwitchForgets | src/extension.ts:63-74 | After the active document changes, no marker is skipped, not even one at the old position. |
| Extension.Selection.Start | src/extension.ts:22 | `editor.selection.start` is one end of the selection and is no later than either end. |
| Extension.Editor.constructor | src/extension.ts:55-104 | The active editor (`vscode.window.activeTextEditor`) holds its document's URI and its current selection; `GotoMarkerInFile` assigns the selection in place. |
| Extension.DiagnosticsOf | src/extension.ts:59-60 | `getDiagnostics(uri)` yields the host's list for a document it holds diagnostics for, and no diagnostics for a document it knows nothing about. |
| Extension.MarkerNavigator.constructor | src/extension.ts:4-5 | The session starts with no last position and no commands issued. |
| Extension.MarkerNavigator.GotoMarkerInFile | src/extension.ts:50-113 | With no editor, the call returns false and changes nothing. Otherwise it resets `lastPosition` for the document and follows `Select`. On a move, it records the document and target, sets an empty selection at the target, issues the three editor commands in order, and returns true. On stay it returns true; on failure it returns false. In both of those cases the selection is unchanged and `lastPosition` is only reset. |
| Scenarios.WrapsToFirst | src/extension.ts:82-88 | With markers on lines 5, 10 and 20 and the cursor on line 25, going forward with looping wraps to line 5. |
| Scenarios.NoWrapFails | src/extension.ts:99-101 | The same setup without looping fails. |
| Scenarios.PrevIsInclusive | src/extension.ts:16-29 | With markers on lines 3, 7 and 12 and the cursor on line 7, going back selects line 7. |
| Scenarios.SingleMarkerTwice | src/extension.ts:89-104 | Through the navigator object, with one error and one hint in the file: the first call moves onto the error and returns true, the second call returns true without moving, and three editor commands are issued in all. |
| Scenarios.SwitchedDocumentDoesNotSkip | src/extension.ts:63-74 | A marker at the position remembered for another document is selected. |

## Left out

- Command registration, `activate` and `deactivate` (src/extension.ts:115-131) are host lifecycle glue. The two commands are calls of `GotoMarkerInFile` with `Markers.ErrorsAndWarnings` and `Next` or `Prev`. Neither command passes `loop`, so it always takes its default `true` (src/extension.ts:53). The `loop = false` path (src/extension.ts:99-101) is therefore not reachable from the commands; the model keeps it because `gotoMarkerInFile` takes the parameter.
- The `executeCommand` calls for `closeMarkersNavigation`, `editor.action.goToLocations` and `editor.action.showHover` are recorded only as the `issued` trace, in order, after the state update. What they do in the editor is not modelled.
- `vscode.window.activeTextEditor` and `vscode.languages.getDiagnostics` are inputs: a nullable `Editor` and a map from URI to diagnostics.
- URIs are compared as strings. The host's URI parsing and normalisation are not modelled.
- `async`: nothing is awaited, so calls are modelled as running one after another.
- Diagnostic fields other than severity and `range.start` (end, message, source, code) are never read, so they are not modelled.
- SortByStart: `getMarkersSorted` sorts the filtered array in place with the host's stable `Array.prototype.sort`. The model uses a pure stable insertion sort on the sequence instead. The array is a fresh local copy made by `filter`, so the in-place update is not observable. Only the chosen marker's start is used afterwards.
- Selections are an anchor/active pair, of which only `start` is read. Selection direction and multiple cursors are not modelled.
- Line and character numbers are unbounded naturals. The host's document bounds are not modelled.
