/** The sketch pad's state and event handlers: the display list and redo
    stack of stroke references, the active stroke, the drawing flag, the
    current marker thickness, and what the canvas shows. */
module SketchPad {
  import opened Marker
  import H = History

  /** Thickness before any tool button is pressed, and the two tool values. */
  const INITIAL_THICKNESS := 4
  const THIN := 2
  const THICK := 8

  predicate IsToolThickness(w: int)
  {
    w == THIN || w == INITIAL_THICKNESS || w == THICK
  }

  /** How the active stroke relates to the history: the drawing flag is set
      exactly when there is one, and the active stroke, if undo or redo can
      still reach it, is the newest entry of the timeline and occurs there
      only once. */
  ghost predicate Tracks(h: H.History<MarkerLine>, current: MarkerLine?, isDrawing: bool)
  {
    && (isDrawing <==> current != null)
    && (current != null ==> H.NewestOnly(H.Timeline(h), current))
  }

  /** The values of the strokes a list of references points to, in order. */
  ghost function Snapshot(list: seq<MarkerLine>): (r: seq<Stroke>)
    reads list
    ensures |r| == |list|
    ensures forall i :: 0 <= i < |list| ==> r[i] == list[i].Value()
  {
    seq(|list|, i reads list requires 0 <= i < |list| => list[i].Value())
  }

  /** Everything a full redraw puts on the cleared canvas: the segments of
      each stroke, stroke after stroke, in display-list order. */
  function Render(strokes: seq<Stroke>): seq<Segment>
  {
    if strokes == [] then []
    else Segments(strokes[0].points, strokes[0].thickness) + Render(strokes[1..])
  }

  /** The stroke list after the last stroke was dragged to `p`. */
  function GrowLast(strokes: seq<Stroke>, p: Point): (r: seq<Stroke>)
    requires strokes != []
    ensures |r| == |strokes| && r[..|r| - 1] == strokes[..|strokes| - 1]
    ensures r[|r| - 1] == strokes[|strokes| - 1].Extended(p)
  {
    strokes[..|strokes| - 1] + [strokes[|strokes| - 1].Extended(p)]
  }

  /** The newest point of a stroke that has one. */
  function LastPoint(s: Stroke): Point
    requires |s.points| >= 1
  {
    s.points[|s.points| - 1]
  }

  /** Redrawing a concatenation of stroke lists draws the first list and
      then the second. */
  lemma {:induction false} RenderConcat(a: seq<Stroke>, b: seq<Stroke>)
    ensures Render(a + b) == Render(a) + Render(b)
  {
    if a != [] {
      assert (a + b)[0] == a[0] && (a + b)[1..] == a[1..] + b;
      RenderConcat(a[1..], b);
      assert Render(a + b) == Segments(a[0].points, a[0].thickness) + Render(a[1..] + b);
    } else {
      assert a + b == b;
    }
  }

  /** Dragging the last stroke of the display list (which has at least its
      start point) adds exactly one segment at the very end of the picture,
      from its previous last point to `p`, at that stroke's thickness;
      everything drawn before stays as it was. */
  lemma RenderGrowLast(strokes: seq<Stroke>, p: Point)
    requires strokes != [] && |strokes[|strokes| - 1].points| >= 1
    ensures Render(GrowLast(strokes, p))
         == Render(strokes) + [Segment(LastPoint(strokes[|strokes| - 1]), p, strokes[|strokes| - 1].thickness)]
  {
    var n := |strokes|;
    var last := strokes[n - 1];
    var init := strokes[..n - 1];
    assert strokes == init + [last];
    RenderConcat(init, [last]);
    RenderConcat(init, [last.Extended(p)]);
    SegmentsSnoc(last.points, p, last.thickness);
  }

  /** Removing the last stroke removes exactly its segments from the end of
      the picture. */
  lemma RenderDropLast(strokes: seq<Stroke>)
    requires strokes != []
    ensures Render(strokes)
         == Render(strokes[..|strokes| - 1])
            + Segments(strokes[|strokes| - 1].points, strokes[|strokes| - 1].thickness)
  {
    var n := |strokes|;
    assert strokes == strokes[..n - 1] + [strokes[n - 1]];
    RenderConcat(strokes[..n - 1], [strokes[n - 1]]);
  }

  /** A stroke not yet in the display list, pushed on the history, becomes
      the active stroke and the newest entry of the timeline. */
  lemma TracksAfterPush(h: H.History<MarkerLine>, c: MarkerLine)
    requires c !in h.displayList
    ensures Tracks(H.Push(h, c), c, true)
  {
  }

  /** Undo and redo keep the timeline, so they keep the active stroke's
      place in it. */
  lemma TracksAfterUndo(h: H.History<MarkerLine>, current: MarkerLine?, isDrawing: bool)
    requires Tracks(h, current, isDrawing)
    ensures Tracks(H.Undo(h), current, isDrawing)
    ensures Tracks(H.Redo(h), current, isDrawing)
  {
    H.UndoConserves(h);
    H.RedoConserves(h);
  }

  /** After clear the timeline is empty, so the active stroke, if any, is off
      it. */
  lemma TracksAfterClear(h: H.History<MarkerLine>, current: MarkerLine?, isDrawing: bool)
    requires isDrawing <==> current != null
    ensures Tracks(H.Clear(h), current, isDrawing)
  {
  }

  /** While a stroke is active and still in the display list, it is the
      display list's last entry, appears nowhere earlier in it, and nothing
      is waiting to be redone. */
  lemma ActiveIsLast(h: H.History<MarkerLine>, current: MarkerLine, isDrawing: bool)
    requires Tracks(h, current, isDrawing) && current in h.displayList
    ensures h.redoStack == []
    ensures h.displayList[|h.displayList| - 1] == current
    ensures current !in h.displayList[..|h.displayList| - 1]
  {
    H.NewestInDisplayList(h, current);
  }

  /** The `drawing-changed` listener: clear the canvas and replay every
      stroke of the display list in order. */
  method RedrawCanvas(displayList: seq<MarkerLine>) returns (picture: seq<Segment>)
    ensures picture == Render(Snapshot(displayList))
  {
    picture := [];
    for i := 0 to |displayList|
      invariant picture == Render(Snapshot(displayList[..i]))
    {
      var segments := displayList[i].Display();
      assert Snapshot(displayList[..i + 1]) == Snapshot(displayList[..i]) + [displayList[i].Value()];
      RenderConcat(Snapshot(displayList[..i]), [displayList[i].Value()]);
      picture := picture + segments;
    }
    assert displayList[..|displayList|] == displayList;
  }

  /** The module-level state of the app, gathered into one object. */
  class AppState {
    var displayList: seq<MarkerLine>
    var redoStack: seq<MarkerLine>
    var current: MarkerLine?
    var isDrawing: bool
    var thickness: int
    /** What the canvas currently shows, as left by the last redraw. */
    var canvas: seq<Segment>

    /** The two lists as a history value. */
    function State(): H.History<MarkerLine>
      reads this
    {
      H.History(displayList, redoStack)
    }

    /** The values the display list's strokes hold, in drawing order. */
    ghost function Strokes(): seq<Stroke>
      reads this, displayList
    {
      Snapshot(displayList)
    }

    /** The canvas shows exactly the picture of the display list. */
    ghost predicate Shown()
      reads this, displayList
    {
      canvas == Render(Strokes())
    }

    /** The invariant every handler keeps: the drawing flag is set exactly
        when there is an active stroke, and the active stroke, when still
        reachable by undo or redo, is the newest stroke and appears only
        once; no stroke sits in more than one place in the two lists; the
        thickness is one the tool buttons can set; the active
        stroke has at least its start point. */
    ghost predicate Valid()
      reads this, current
    {
      && Tracks(State(), current, isDrawing)
      && H.Unique(State())
      && IsToolThickness(thickness)
      && (current != null ==> |current.points| >= 1)
    }

    /** Empty lists, no active stroke, not drawing, thickness 4, blank canvas. */
    constructor ()
      ensures Valid() && Shown()
      ensures State() == H.Empty() && current == null && !isDrawing
      ensures thickness == INITIAL_THICKNESS && canvas == []
    {
      displayList := [];
      redoStack := [];
      current := null;
      isDrawing := false;
      thickness := INITIAL_THICKNESS;
      canvas := [];
    }

    /** mousedown: start drawing, create a stroke at the event position with
        the current thickness, make it the active stroke, append it to the
        display list, empty the redo stack and redraw. */
    method MouseDown(x: int, y: int)
      requires Valid()
      modifies this
      ensures Valid() && Shown()
      ensures isDrawing && current != null && fresh(current)
      ensures State() == H.Push(old(State()), current)
      ensures thickness == old(thickness)
      ensures Strokes() == old(Strokes()) + [Stroke([Point(x, y)], thickness)]
    {
      var stroke := new MarkerLine(x, y, thickness);
      TracksAfterPush(State(), stroke);
      H.UniqueAfterPush(State(), stroke);
      var list := displayList + [stroke];
      assert Snapshot(list) == Snapshot(displayList) + [stroke.Value()];
      var picture := RedrawCanvas(list);
      isDrawing, current, displayList, redoStack, canvas := true, stroke, list, [], picture;
      assert Strokes() == Snapshot(list);
    }

    /** mousemove: ignored unless drawing with an active stroke; otherwise the
        active stroke gets one more point and the canvas is redrawn. The
        active stroke is shared with the display list, so when it is still
        there the last stroke of the display list grows and every other
        stroke stays as it was. */
    method MouseMove(x: int, y: int)
      requires Valid()
      modifies this, current
      ensures Valid()
      ensures State() == old(State()) && current == old(current)
      ensures isDrawing == old(isDrawing) && thickness == old(thickness)
      ensures !old(isDrawing) ==> canvas == old(canvas)
      ensures old(isDrawing) ==> Shown()
      ensures old(isDrawing) ==> current.Value() == old(current.Value()).Extended(Point(x, y))
      ensures current !in displayList ==> Strokes() == old(Strokes())
      ensures current != null && current in displayList ==>
                Strokes() == GrowLast(old(Strokes()), Point(x, y))
    {
      if !isDrawing || current == null {
        return;
      }
      var stroke := current;
      ghost var before := Snapshot(displayList);
      stroke.Drag(x, y);
      if stroke in displayList {
        ActiveIsLast(State(), stroke, isDrawing);
        assert Snapshot(displayList) == GrowLast(before, Point(x, y));
      } else {
        assert Snapshot(displayList) == before;
      }
      canvas := RedrawCanvas(displayList);
    }

    /** mouseup: stop drawing and drop the active stroke; the lists, the
        strokes and the canvas are untouched. */
    method MouseUp()
      requires Valid()
      modifies this
      ensures Valid()
      ensures !isDrawing && current == null
      ensures State() == old(State()) && thickness == old(thickness)
      ensures Strokes() == old(Strokes()) && canvas == old(canvas)
    {
      isDrawing, current := false, null;
    }

    /** mouseleave: the same release as mouseup. */
    method MouseLeave()
      requires Valid()
      modifies this
      ensures Valid()
      ensures !isDrawing && current == null
      ensures State() == old(State()) && thickness == old(thickness)
      ensures Strokes() == old(Strokes()) && canvas == old(canvas)
    {
      isDrawing, current := false, null;
    }

    /** Clear button: empty both lists and redraw a blank canvas. The active
        stroke, if any, stays active though no longer in either list. */
    method Clear()
      requires Valid()
      modifies this
      ensures Valid() && Shown()
      ensures State() == H.Clear(old(State())) && Strokes() == [] && canvas == []
      ensures current == old(current) && isDrawing == old(isDrawing) && thickness == old(thickness)
    {
      TracksAfterClear(State(), current, isDrawing);
      H.UniqueAfterClear(State());
      var picture := RedrawCanvas([]);
      displayList, redoStack, canvas := [], [], picture;
    }

    /** Undo button: nothing on an empty display list; otherwise its last
        stroke moves to the top of the redo stack and the picture is redrawn
        without it. */
    method Undo()
      requires Valid()
      modifies this
      ensures Valid()
      ensures State() == H.Undo(old(State()))
      ensures current == old(current) && isDrawing == old(isDrawing) && thickness == old(thickness)
      ensures old(displayList) == [] ==> canvas == old(canvas)
      ensures old(displayList) != [] ==> Shown()
      ensures Strokes() == old(Strokes())[..|displayList|]
    {
      if |displayList| == 0 {
        return;
      }
      ghost var h := State();
      TracksAfterUndo(h, current, isDrawing);
      H.UniqueAfterUndo(h);
      var undone := displayList[|displayList| - 1];
      ghost var before := Snapshot(displayList);
      displayList, redoStack := displayList[..|displayList| - 1], redoStack + [undone];
      assert State() == H.Undo(h);
      assert Snapshot(displayList) == before[..|displayList|];
      canvas := RedrawCanvas(displayList);
    }

    /** Redo button: nothing on an empty redo stack; otherwise its top stroke
        moves back to the end of the display list and the picture is redrawn
        with it. */
    method Redo()
      requires Valid()
      modifies this
      ensures Valid()
      ensures State() == H.Redo(old(State()))
      ensures current == old(current) && isDrawing == old(isDrawing) && thickness == old(thickness)
      ensures old(redoStack) == [] ==> canvas == old(canvas) && Strokes() == old(Strokes())
      ensures old(redoStack) != [] ==>
                Shown() && Strokes() == old(Strokes()) + [displayList[|displayList| - 1].Value()]
    {
      if |redoStack| == 0 {
        return;
      }
      ghost var h := State();
      TracksAfterUndo(h, current, isDrawing);
      H.UniqueAfterUndo(h);
      var restored := redoStack[|redoStack| - 1];
      ghost var before := Snapshot(displayList);
      displayList, redoStack := displayList + [restored], redoStack[..|redoStack| - 1];
      assert State() == H.Redo(h);
      assert Snapshot(displayList) == before + [restored.Value()];
      canvas := RedrawCanvas(displayList);
    }

    /** Thin button: thickness 2 for strokes started from now on; strokes
        already made, the lists and the canvas are untouched. */
    method SelectThin()
      requires Valid()
      modifies this
      ensures Valid()
      ensures thickness == THIN
      ensures State() == old(State()) && current == old(current) && isDrawing == old(isDrawing)
      ensures Strokes() == old(Strokes()) && canvas == old(canvas)
      ensures Snapshot(redoStack) == old(Snapshot(redoStack))
    {
      thickness := THIN;
    }

    /** Thick button: thickness 8 for strokes started from now on; strokes
        already made, the lists and the canvas are untouched. */
    method SelectThick()
      requires Valid()
      modifies this
      ensures Valid()
      ensures thickness == THICK
      ensures State() == old(State()) && current == old(current) && isDrawing == old(isDrawing)
      ensures Strokes() == old(Strokes()) && canvas == old(canvas)
      ensures Snapshot(redoStack) == old(Snapshot(redoStack))
    {
      thickness := THICK;
    }
  }
}
