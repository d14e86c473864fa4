/** The pointer state machine of the frameless formatter window, as functions on
    an explicit state value: hovering classifies the pointer against an 8-pixel
    margin on each side and picks a cursor; a left press records the pointer and
    the window rectangle; moves while pressed either resize (some edge active) or
    drag (no edge active); any release ends the gesture. */
module Interaction {
  import opened Geometry

  /** The resize direction: a mask of Qt::Edge bits. Only these four bits are ever
      or-ed into it, so four bits hold every value it takes. */
  type Mask = bv4

  const TopEdge: Mask := 1
  const LeftEdge: Mask := 2
  const RightEdge: Mask := 4
  const BottomEdge: Mask := 8

  /** Width in pixels of the hit zone along each border. */
  const Margin: int := 8

  predicate Has(m: Mask, edges: Mask)
  {
    m & edges != 0
  }

  /** The mask a hover move computes from the pointer position local to the window
      and the window's size: each bit is decided on its own, with inclusive bounds. */
  function EdgesAt(pos: Point, width: int, height: int): (m: Mask)
    ensures Has(m, LeftEdge) <==> pos.x <= Margin
    ensures Has(m, RightEdge) <==> pos.x >= width - Margin
    ensures Has(m, TopEdge) <==> pos.y <= Margin
    ensures Has(m, BottomEdge) <==> pos.y >= height - Margin
  {
    (if pos.x <= Margin then LeftEdge else 0)
    | (if pos.x >= width - Margin then RightEdge else 0)
    | (if pos.y <= Margin then TopEdge else 0)
    | (if pos.y >= height - Margin then BottomEdge else 0)
  }

  /** A pointer gets no edge exactly when it lies strictly inside the window shrunk
      by the margin on every side. */
  lemma InteriorHasNoEdges(pos: Point, width: int, height: int)
    ensures EdgesAt(pos, width, height) == 0 <==>
      Margin < pos.x < width - Margin && Margin < pos.y < height - Margin
  {
    var m := EdgesAt(pos, width, height);
    if m == 0 {
      assert !Has(m, LeftEdge) && !Has(m, RightEdge) && !Has(m, TopEdge) && !Has(m, BottomEdge);
    }
  }

  datatype Cursor = ArrowCursor | SizeFDiagCursor | SizeBDiagCursor | SizeHorCursor | SizeVerCursor

  /** The cursor chosen for a mask by the handler's if/elif chain, test for test.
      The first test covers all four bits, so every non-zero mask takes the first
      branch and the other resize cursors are never chosen. */
  function CursorFor(m: Mask): (c: Cursor)
    ensures c == ArrowCursor <==> m == 0
    ensures m != 0 ==> c == SizeFDiagCursor
  {
    if Has(m, LeftEdge | TopEdge) || Has(m, RightEdge | BottomEdge) then SizeFDiagCursor
    else if Has(m, RightEdge | TopEdge) || Has(m, LeftEdge | BottomEdge) then SizeBDiagCursor
    else if Has(m, LeftEdge | RightEdge) then SizeHorCursor
    else if Has(m, TopEdge | BottomEdge) then SizeVerCursor
    else ArrowCursor
  }

  datatype Button = LeftButton | RightButton | MiddleButton | OtherButton

  /** The window's interaction state. startPos and startGeometry do not exist until
      the first left press. */
  datatype Window = Window(
    pressed: bool,
    direction: Mask,
    startPos: Option<Point>,
    startGeometry: Option<Rect>,
    geometry: Rect,
    cursor: Cursor)

  /** What the handlers rely on: while pressed, the press has recorded both start values,
      and the two are always recorded together. */
  predicate Consistent(w: Window)
  {
    (w.startPos.Some? <==> w.startGeometry.Some?) && (w.pressed ==> w.startPos.Some?)
  }

  /** The state when the window is created with the given geometry. */
  function Initial(g: Rect): (w: Window)
    ensures Consistent(w) && !w.pressed && w.direction == 0 && w.geometry == g
    ensures w.startPos == None && w.startGeometry == None && w.cursor == ArrowCursor
  {
    Window(false, 0, None, None, g, ArrowCursor)
  }

  /** mousePressEvent: a left press records where the pointer and window are;
      other buttons are ignored. */
  function OnPress(w: Window, button: Button, globalPos: Point): Window
  {
    if button == LeftButton then
      w.(pressed := true, startPos := Some(globalPos), startGeometry := Some(w.geometry))
    else w
  }

  /** The setLeft / setTop / setRight / setBottom calls of a resize: each edge in the
      mask moves by the delta on its axis, the others stay. */
  function Resized(g: Rect, m: Mask, d: Point): Rect
  {
    Rect(
      if Has(m, LeftEdge) then g.left + d.x else g.left,
      if Has(m, TopEdge) then g.top + d.y else g.top,
      if Has(m, RightEdge) then g.right + d.x else g.right,
      if Has(m, BottomEdge) then g.bottom + d.y else g.bottom)
  }

  /** mouseMoveEvent. Not pressed: rebuild the mask from the local position and set
      the cursor. Pressed with a mask: resize the stored start rectangle in place
      (the handler's local alias writes through to it) and show it normalised.
      Pressed without a mask: drag the window by the pointer's displacement since
      the last recorded position, then record the new one. */
  function OnMove(w: Window, globalPos: Point, localPos: Point): Window
    requires Consistent(w)
  {
    if !w.pressed then
      var m := EdgesAt(localPos, Width(w.geometry), Height(w.geometry));
      w.(direction := m, cursor := CursorFor(m))
    else if w.direction != 0 then
      var g := Resized(w.startGeometry.value, w.direction, Sub(globalPos, w.startPos.value));
      w.(startGeometry := Some(g), geometry := Normalized(g))
    else
      var delta := Sub(globalPos, w.startPos.value);
      w.(geometry := MoveTo(w.geometry, Add(TopLeft(w.geometry), delta)), startPos := Some(globalPos))
  }

  /** mouseReleaseEvent, whatever the button. */
  function OnRelease(w: Window): Window
  {
    w.(pressed := false, direction := 0, cursor := ArrowCursor)
  }

  datatype Event =
    | PressEvent(button: Button, pos: Point)
    | MoveEvent(globalPos: Point, localPos: Point)
    | ReleaseEvent(button: Button)

  function Step(w: Window, e: Event): (r: Window)
    requires Consistent(w)
    ensures Consistent(r)
  {
    match e
    case PressEvent(b, p) => OnPress(w, b, p)
    case MoveEvent(g, l) => OnMove(w, g, l)
    case ReleaseEvent(_) => OnRelease(w)
  }

  /** The state after a sequence of pointer events; every state reached is consistent. */
  function Run(w: Window, es: seq<Event>): (r: Window)
    requires Consistent(w)
    ensures Consistent(r)
    decreases |es|
  {
    if es == [] then w else Run(Step(w, es[0]), es[1..])
  }

  lemma {:induction false} RunAppend(w: Window, a: seq<Event>, b: seq<Event>)
    requires Consistent(w)
    ensures Run(w, a + b) == Run(Run(w, a), b)
    decreases |a|
  {
    if a == [] {
      assert a + b == b;
    } else {
      assert (a + b)[0] == a[0] && (a + b)[1..] == a[1..] + b;
      RunAppend(Step(w, a[0]), a[1..], b);
    }
  }

  /** Hovering (not pressed) rebuilds the mask from zero, whatever it was, sets the
      cursor from it, and touches nothing else; a pointer in the interior gives the
      empty mask and the arrow. */
  lemma HoverRebuildsMask(w: Window, globalPos: Point, localPos: Point)
    requires Consistent(w) && !w.pressed
    ensures var r := OnMove(w, globalPos, localPos);
      var m := EdgesAt(localPos, Width(w.geometry), Height(w.geometry));
      r.direction == m && r.cursor == CursorFor(m) &&
      r.pressed == w.pressed && r.startPos == w.startPos &&
      r.startGeometry == w.startGeometry && r.geometry == w.geometry
    ensures (Margin < localPos.x < Width(w.geometry) - Margin &&
             Margin < localPos.y < Height(w.geometry) - Margin) ==>
      OnMove(w, globalPos, localPos).direction == 0 &&
      OnMove(w, globalPos, localPos).cursor == ArrowCursor
  {
    InteriorHasNoEdges(localPos, Width(w.geometry), Height(w.geometry));
  }

  /** A left press records the pointer and the current window rectangle and keeps
      the mask last computed; any other button changes nothing. */
  lemma PressRecords(w: Window, button: Button, globalPos: Point)
    ensures var r := OnPress(w, button, globalPos);
      if button == LeftButton then
        r.pressed && r.startPos == Some(globalPos) && r.startGeometry == Some(w.geometry) &&
        r.direction == w.direction && r.geometry == w.geometry && r.cursor == w.cursor
      else r == w
  {
  }

  /** One resize move: only the coordinates of active edges change, each shifted by
      the pointer's displacement from the press point on its axis; the stored start
      rectangle becomes that un-normalised rectangle, the window shows it normalised,
      and the press point is not updated. */
  lemma ResizeMove(w: Window, globalPos: Point, localPos: Point)
    requires Consistent(w) && w.pressed && w.direction != 0
    ensures var r := OnMove(w, globalPos, localPos);
      var s, m, d := w.startGeometry.value, w.direction, Sub(globalPos, w.startPos.value);
      r.startGeometry.Some? &&
      r.startGeometry.value.left == (if Has(m, LeftEdge) then s.left + d.x else s.left) &&
      r.startGeometry.value.top == (if Has(m, TopEdge) then s.top + d.y else s.top) &&
      r.startGeometry.value.right == (if Has(m, RightEdge) then s.right + d.x else s.right) &&
      r.startGeometry.value.bottom == (if Has(m, BottomEdge) then s.bottom + d.y else s.bottom) &&
      r.geometry == Normalized(r.startGeometry.value) && IsNormal(r.geometry) &&
      r.startPos == w.startPos && r.pressed && r.direction == m && r.cursor == w.cursor
  {
  }

  /** One drag move: the window keeps its size and its top-left corner moves by
      exactly the pointer's displacement since the recorded position, which then
      becomes the current pointer position. */
  lemma DragMove(w: Window, globalPos: Point, localPos: Point)
    requires Consistent(w) && w.pressed && w.direction == 0
    ensures var r := OnMove(w, globalPos, localPos);
      TopLeft(r.geometry) == Add(TopLeft(w.geometry), Sub(globalPos, w.startPos.value)) &&
      Width(r.geometry) == Width(w.geometry) && Height(r.geometry) == Height(w.geometry) &&
      r.startPos == Some(globalPos) &&
      r.pressed && r.direction == 0 && r.startGeometry == w.startGeometry && r.cursor == w.cursor
  {
  }

  /** A release with any button ends the gesture from any state, leaving the window
      where it is. */
  lemma ReleaseResets(w: Window)
    ensures var r := OnRelease(w);
      !r.pressed && r.direction == 0 && r.cursor == ArrowCursor &&
      r.geometry == w.geometry && r.startPos == w.startPos && r.startGeometry == w.startGeometry
  {
  }

  predicate AllMoves(es: seq<Event>)
  {
    forall i :: 0 <= i < |es| ==> es[i].MoveEvent?
  }

  /** The last pointer position of a run of moves, or p0 when there are none. */
  function LastPointer(p0: Point, es: seq<Event>): Point
    requires AllMoves(es)
  {
    if es == [] then p0 else es[|es| - 1].globalPos
  }

  /** Over any run of drag moves the window's total displacement equals the
      pointer's total displacement, and the window keeps its size. */
  lemma {:induction false} DragFollowsPointer(w: Window, es: seq<Event>)
    requires Consistent(w) && w.pressed && w.direction == 0 && AllMoves(es)
    ensures var r, p := Run(w, es), LastPointer(w.startPos.value, es);
      TopLeft(r.geometry) == Add(TopLeft(w.geometry), Sub(p, w.startPos.value)) &&
      Width(r.geometry) == Width(w.geometry) && Height(r.geometry) == Height(w.geometry) &&
      r.startPos == Some(p) && r.pressed && r.direction == 0 &&
      r.startGeometry == w.startGeometry && r.cursor == w.cursor
    decreases |es|
  {
    if es != [] {
      var w1 := Step(w, es[0]);
      DragMove(w, es[0].globalPos, es[0].localPos);
      assert AllMoves(es[1..]) by {
        forall i | 0 <= i < |es[1..]| ensures es[1..][i].MoveEvent? {
          assert es[1..][i] == es[i + 1];
        }
      }
      DragFollowsPointer(w1, es[1..]);
      assert LastPointer(es[0].globalPos, es[1..]) == LastPointer(w.startPos.value, es);
    }
  }

  /** A whole drag gesture: a left press at p0 with no edge active, any moves, a
      release. The window ends displaced by the pointer's net displacement, with its
      size kept, and the interaction back at rest. */
  lemma DragGesture(w: Window, p0: Point, moves: seq<Event>, b: Button)
    requires Consistent(w) && w.direction == 0 && AllMoves(moves)
    ensures var r := Run(w, [PressEvent(LeftButton, p0)] + moves + [ReleaseEvent(b)]);
      TopLeft(r.geometry) == Add(TopLeft(w.geometry), Sub(LastPointer(p0, moves), p0)) &&
      Width(r.geometry) == Width(w.geometry) && Height(r.geometry) == Height(w.geometry) &&
      !r.pressed && r.direction == 0 && r.cursor == ArrowCursor
  {
    var press, release := [PressEvent(LeftButton, p0)], [ReleaseEvent(b)];
    var w1 := OnPress(w, LeftButton, p0);
    assert press[1..] == [];
    assert Run(w, press) == Run(w1, []) == w1;
    RunAppend(w, press, moves);
    RunAppend(w, press + moves, release);
    DragFollowsPointer(w1, moves);
  }

  /** Sum of the displacements of each move's pointer from the fixed point p0. */
  function SumDelta(p0: Point, es: seq<Event>): Point
    requires AllMoves(es)
  {
    if es == [] then Point(0, 0)
    else Add(Sub(es[0].globalPos, p0), SumDelta(p0, es[1..]))
  }

  lemma ResizedCompose(g: Rect, m: Mask, d1: Point, d2: Point)
    ensures Resized(Resized(g, m, d1), m, d2) == Resized(g, m, Add(d1, d2))
  {
  }

  /** Because a resize writes into the stored start rectangle while the press point
      stays fixed, successive resize moves compound: after a run of moves, each
      active edge has moved by the SUM of the pointer's displacements from the press
      point, not by its net displacement. */
  lemma {:induction false} ResizeAccumulates(w: Window, es: seq<Event>)
    requires Consistent(w) && w.pressed && w.direction != 0 && AllMoves(es)
    ensures var r := Run(w, es);
      r.startGeometry == Some(Resized(w.startGeometry.value, w.direction, SumDelta(w.startPos.value, es))) &&
      (es != [] ==> r.geometry == Normalized(r.startGeometry.value)) &&
      r.startPos == w.startPos && r.pressed && r.direction == w.direction
    decreases |es|
  {
    if es != [] {
      var s, m, p0 := w.startGeometry.value, w.direction, w.startPos.value;
      var d0 := Sub(es[0].globalPos, p0);
      var w1 := Step(w, es[0]);
      assert w1 == w.(startGeometry := Some(Resized(s, m, d0)), geometry := Normalized(Resized(s, m, d0)));
      assert AllMoves(es[1..]) by {
        forall i | 0 <= i < |es[1..]| ensures es[1..][i].MoveEvent? {
          assert es[1..][i] == es[i + 1];
        }
      }
      ResizeAccumulates(w1, es[1..]);
      ResizedCompose(s, m, d0, SumDelta(p0, es[1..]));
    }
  }

  /** A concrete instance: the left border (x = 100) grabbed at x = 104, pointer
      moved to x = 105 and then x = 106. The pointer moved 2 pixels in all, but the
      left edge moved 1 + 2 = 3. */
  lemma ResizeOvershootExample()
    ensures var g := Rect(100, 100, 900, 700);
      var w := Window(true, LeftEdge, Some(Point(104, 300)), Some(g), g, SizeFDiagCursor);
      var r := OnMove(OnMove(w, Point(105, 300), Point(5, 200)), Point(106, 300), Point(6, 200));
      r.geometry == Rect(103, 100, 900, 700)
  {
    var g := Rect(100, 100, 900, 700);
    var w := Window(true, LeftEdge, Some(Point(104, 300)), Some(g), g, SizeFDiagCursor);
    var w1 := OnMove(w, Point(105, 300), Point(5, 200));
    assert w1.startGeometry == Some(Resized(g, LeftEdge, Point(1, 0)));
    assert Resized(g, LeftEdge, Point(1, 0)) == Rect(101, 100, 900, 700);
    var w2 := OnMove(w1, Point(106, 300), Point(6, 200));
    assert w2.geometry == Normalized(Resized(Rect(101, 100, 900, 700), LeftEdge, Point(2, 0)));
    assert Resized(Rect(101, 100, 900, 700), LeftEdge, Point(2, 0)) == Rect(103, 100, 900, 700);
  }
}
