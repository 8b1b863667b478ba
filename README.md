# Sketch pad drawing core in Dafny

This project models the drawing core of a small in-browser sketch pad
(`src/main.ts`). It covers:

- the `MarkerLine` stroke command, which records the points of one freehand
  stroke and the thickness it was started with, and replays them as a
  polyline;
- the display list and the redo stack, which hold references to stroke
  commands;
- the gesture state machine: the drawing flag and the active command,
  driven by mousedown, mousemove, mouseup and mouseleave;
- the Undo, Redo and Clear buttons and the Thin and Thick tool buttons;
- the `drawing-changed` redraw, which clears the canvas and replays every
  stroke of the display list.

Layout:

- `marker.dfy` (module `Marker`) holds the values.
  - `Point`, `Segment` and `Stroke` are datatypes.
  - `Segments` is the polyline a point list draws.
  - The `MarkerLine` class is the command object. Its `points` and
    `thickness` are fields, and `Drag` updates them in place.
- `history.dfy` (module `History`) is the undo/redo discipline as pure
  functions on a pair of lists (`Push`, `Undo`, `Redo`, `Clear`).
  - It includes their repeated forms and the laws they satisfy.
  - Entries are generic, because the app moves them only by stack position.
- `sketchpad.dfy` (module `SketchPad`) models the module-level variables of
  the app as one object of class `AppState`.
  - The fields are `displayList`, `redoStack`, `current`, `isDrawing`,
    `thickness`, and `canvas`, the picture left by the last redraw.
  - There is one method per event handler.
  - `RedrawCanvas` is the redraw loop.
  - `Render` is the picture of a list of stroke values.
  - `Snapshot` reads the values of a list of stroke references in the
    current heap.
- `scenarios.dfy` (module `Scenarios`) states the outcome of two event
  sequences.

Aliasing is kept as in the source. The display list and `current` hold
references to the same `MarkerLine`. A drag while drawing therefore changes
the stroke inside the history. `MouseMove` may modify only `current`, and
its contract says which entry of the display list grows. `Tracks`, which is
part of `AppState.Valid`, is the invariant that makes this provable. Read
the display list followed by the redo stack from its top (the "timeline").
The active stroke, if undo or redo can still reach it, is the newest entry
of that timeline and occurs there only once.

## Model

| member | source | states |
|---|---|---|
| Marker.Stroke.Extended | src/main.ts:72-74 | one more drag keeps the thickness and every earlier point and adds `p` as the new last point |
| Marker.MarkerLine.constructor | src/main.ts:67-70 | a new stroke holds exactly its start point and the thickness it was given |
| Marker.MarkerLine.Drag | src/main.ts:72-74 | `drag` appends the point to the stroke's own points; the thickness is unchanged |
| Marker.MarkerLine.Display | src/main.ts:76-90 | the loop hands the canvas exactly `Segments(points, thickness)`; nothing is drawn below two points |
| Marker.SegmentsShape | src/main.ts:76-90 | a polyline through n >= 2 points has n - 1 segments, segment i joins point i to point i + 1 at the stroke's own thickness, and fewer than two points draw nothing |
| Marker.SegmentsSnoc | src/main.ts:72-74 | appending a point adds exactly one segment, from the old last point to the new one, after the old segments |
| History.Push | src/main.ts:117-121 | a new stroke is appended to the display list and the redo stack is emptied |
| History.Undo | src/main.ts:151-157 | undo on an empty display list changes nothing; otherwise the last entry moves to the top of the redo stack and the rest stays in order |
| History.Redo | src/main.ts:159-165 | redo on an empty redo stack changes nothing; otherwise the top entry moves back to the end of the display list |
| History.Clear | src/main.ts:145-149 | both lists end up empty |
| History.UndoConserves | src/main.ts:151-157 | undo neither creates nor loses entries: the multiset of entries, the total length and the timeline are the same before and after |
| History.RedoConserves | src/main.ts:159-165 | the same conservation for redo |
| History.UndoRedoRoundTrip | src/main.ts:151-165 | undo then redo restores both lists exactly whenever undo did something; so does redo then undo |
| History.UndoTimesShape | src/main.ts:151-157 | after k <= n undos, the display list has lost its last k entries and the redo stack has gained them in reverse order of drawing |
| History.UndoRedoTimesRoundTrip | src/main.ts:151-165 | k undos followed by k redos give back the original history, for every k up to the display list's length |
| History.PushInvalidatesRedo | src/main.ts:118-121 | after a new stroke, redo does nothing and undo takes back only the new stroke |
| History.ClearThenUndo | src/main.ts:145-157 | undo or redo right after clear is a no-op |
| History.PushNewest | src/main.ts:117-118 | a pushed entry that was not already in the display list is the newest entry of the timeline and occurs there only once |
| History.NewestInDisplayList | src/main.ts:126-129 | an entry that occurs only as the newest entry of the timeline and sits in the display list is its last entry, appears nowhere earlier, and the redo stack is empty |
| History.UniqueSeparates | src/main.ts:151-165 | in a history where no entry occurs twice, an entry of the display list is not also on the redo stack |
| History.UniqueAfterPush | src/main.ts:116-121 | appending a stroke that is not already in the display list and dropping the redo stack keeps every entry in one place only |
| History.UniqueAfterUndo | src/main.ts:151-165 | undo and redo keep every entry in one place only, since they move an entry without copying it |
| History.UniqueAfterClear | src/main.ts:145-149 | after clear no entry occurs twice |
| SketchPad.RenderConcat | src/main.ts:103-109 | redrawing two lists of strokes one after the other draws the first list's picture and then the second's |
| SketchPad.RenderGrowLast | src/main.ts:126-131 | dragging the last stroke adds exactly one segment at the end of the picture, from that stroke's previous last point to the new point, at its thickness |
| SketchPad.RenderDropLast | src/main.ts:151-157 | removing the last stroke removes exactly its segments from the end of the picture |
| SketchPad.TracksAfterPush | src/main.ts:114-124 | after mousedown the new stroke is the active stroke and the newest entry of the timeline |
| SketchPad.TracksAfterUndo | src/main.ts:151-165 | undo and redo keep the active stroke's place in the timeline |
| SketchPad.TracksAfterClear | src/main.ts:145-149 | after clear the active stroke, if any, is in neither list |
| SketchPad.ActiveIsLast | src/main.ts:126-129 | an active stroke still in the display list is its last entry, occurs there once, and nothing is waiting to be redone |
| SketchPad.RedrawCanvas | src/main.ts:103-109 | the redraw loop draws `Render` of the display list's current stroke values, stroke after stroke |
| SketchPad.AppState.constructor | src/main.ts:94-100 | empty lists, no active stroke, not drawing, thickness 4, blank canvas |
| SketchPad.AppState.MouseDown | src/main.ts:114-124 | drawing starts; a fresh stroke at the press point with the current thickness becomes the active stroke; the history becomes `Push(old history, stroke)`; the stroke values gain exactly that one-point stroke; the canvas shows the new display list |
| SketchPad.AppState.MouseMove | src/main.ts:126-131 | with no drag open nothing changes; otherwise the active stroke gains the point; if it is in the display list, the stroke values become `GrowLast` of the old ones; if not, they are unchanged; the lists stay the same and the canvas is redrawn |
| SketchPad.AppState.MouseUp | src/main.ts:133-136 | drawing stops and the active stroke is dropped; the lists, the stroke values, the thickness and the canvas are unchanged |
| SketchPad.AppState.MouseLeave | src/main.ts:138-141 | the same release as mouseup |
| SketchPad.AppState.Clear | src/main.ts:145-149 | the history becomes `Clear` of the old one and the canvas is blank; the gesture state and thickness are untouched |
| SketchPad.AppState.Undo | src/main.ts:151-157 | the history becomes `Undo` of the old one; the stroke values lose their last entry and the canvas is redrawn; nothing changes on an empty display list |
| SketchPad.AppState.Redo | src/main.ts:159-165 | the history becomes `Redo` of the old one; the restored stroke's value is appended and the canvas is redrawn; nothing changes on an empty redo stack |
| SketchPad.AppState.SelectThin | src/main.ts:167-168 | the thickness for new strokes becomes 2; no stroke in either list, no list and not the canvas change |
| SketchPad.AppState.SelectThick | src/main.ts:173-174 | the thickness for new strokes becomes 8; no stroke in either list, no list and not the canvas change |
| Scenarios.GestureThenIdleMove | src/main.ts:114-141 | press at (1, 1), move to (2, 2), leave, then an idle move to (50, 50): the stroke has exactly the two points, the display list is exactly that one stroke (`sole`), and its value is the two-point stroke at thickness 4 |
| Scenarios.UndoRedoClearSequence | src/main.ts:145-165 | for entries a and b drawn in that order: undo gives ([a], [b]); undo again gives ([], [b, a]); redo gives ([a], [b]); clear gives two empty lists |

`AppState.Valid` is the invariant that every handler keeps, and it holds
four things:

- `Tracks`: the drawing flag is set exactly when there is an active stroke,
  and the active stroke is the timeline's newest entry, as described above.
- `History.Unique`: no stroke occurs twice in the timeline. So no stroke
  is twice in the display list, twice on the redo stack, or in both
  (`History.UniqueSeparates`). Every mousedown pushes a new `MarkerLine`,
  and undo and redo only move entries.
- The thickness is one of 4, 2 and 8.
- The active stroke has at least its start point.

## Left out

- The page setup is not modelled: the title, the canvas element and the buttons (src/main.ts:1-59).
- The `selectedTool` CSS class toggling is not modelled (src/main.ts:169-170, 175-176, 179). It only affects the look of the buttons. At start-up the Thin button is highlighted although the thickness is 4.
- The Canvas 2D calls are modelled only by the segments they would draw.
  - `clearRect` becomes starting from an empty picture.
  - `moveTo`/`lineTo` become the list of `Segment`s.
  - `lineWidth` is the segment width.
  - `lineCap = "round"` and `beginPath`/`stroke` are not modelled.
- The `drawing-changed` event is modelled as a direct, synchronous call of `RedrawCanvas`, whose result is stored in `canvas`. The browser runs the listener synchronously inside `dispatchEvent`, so the order of effects is the same.
- Event objects are replaced by their `offsetX`/`offsetY` values, passed as parameters.
- Coordinates are JavaScript numbers, which may be fractional. They are modelled as unbounded integers, because nothing in the core does arithmetic on them.
- Handlers may be called in any order. The model does not assume that a button click cannot happen while a drag is open, because a button can be pressed during a drag, for instance from the keyboard. After such an Undo, later drags grow a stroke that sits on the redo stack, as the code does. `MouseMove` states this case: the display list's strokes are then unchanged.
- SketchPad.AppState.MouseMove: the contract gives the new picture as the redraw of the new stroke values (`Shown`) together with `Strokes() == GrowLast(old(Strokes()), p)`. It does not state "the canvas gains one segment" directly. That form is `RenderGrowLast`, applied to the old stroke values.
- SketchPad.AppState.Valid does not include "the canvas shows the display list". Instead, each handler that redraws ensures `Shown()`. The handlers that do not redraw (mouseup, mouseleave, the tool buttons, and mousemove with no drag open) ensure that the lists, the stroke values and the canvas are unchanged.
- Stickers, colours, rotation and the tool preview are not part of this model. `src/main.ts` has none of them.
