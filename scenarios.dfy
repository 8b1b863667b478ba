/** The outcome of two short event sequences on the sketch pad model. */
module Scenarios {
  import opened Marker
  import H = History
  import opened SketchPad

  /** Press at (1, 1), move to (2, 2), leave the canvas, then move to
      (50, 50) without a button held: the stroke of that gesture keeps
      exactly the two points it was given, the display list holds that
      stroke and nothing else, and the idle move changes nothing. */
  method GestureThenIdleMove() returns (points: seq<Point>, sole: bool, strokes: seq<Stroke>)
    ensures points == [Point(1, 1), Point(2, 2)]
    ensures sole
    ensures strokes == [Stroke([Point(1, 1), Point(2, 2)], INITIAL_THICKNESS)]
  {
    var app := new AppState();
    app.MouseDown(1, 1);
    var stroke := app.current;
    app.MouseMove(2, 2);
    app.MouseLeave();
    app.MouseMove(50, 50);
    points := stroke.points;
    sole := app.displayList == [stroke];
    strokes := [app.displayList[0].Value()];
  }

  /** Two entries a and b committed in that order; undo, undo, redo, clear. */
  lemma UndoRedoClearSequence<T>(a: T, b: T)
    ensures var h := H.Push(H.Push(H.Empty(), a), b);
            && H.Undo(h) == H.History([a], [b])
            && H.Undo(H.Undo(h)) == H.History([], [b, a])
            && H.Redo(H.Undo(H.Undo(h))) == H.History([a], [b])
            && H.Clear(H.Redo(H.Undo(H.Undo(h)))) == H.Empty()
  {
  }
}
