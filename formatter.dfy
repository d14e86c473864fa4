/** The JSONFormatter main window, reduced to the state its pointer handlers and
    its escape button touch. The handlers update the fields in place, step by step
    as the window does, and each is proved to produce exactly the state the
    corresponding function of module Interaction describes. */
module Formatter {
  import opened Geometry
  import opened Interaction
  import JsonEscape

  class JsonFormatter {
    var mousePressed: bool
    var resizeDirection: Mask
    var startPos: Option<Point>
    var startGeometry: Option<Rect>
    /** The window rectangle; its top-left corner is the window position. */
    var geometry: Rect
    var cursor: Cursor
    /** The editor buffer. */
    var text: seq<char>

    function State(): Window
      reads this
    {
      Window(mousePressed, resizeDirection, startPos, startGeometry, geometry, cursor)
    }

    predicate Valid()
      reads this
    {
      Consistent(State())
    }

    /** A new window at the given geometry with an empty buffer. */
    constructor (initialGeometry: Rect)
      ensures Valid() && State() == Initial(initialGeometry) && text == []
    {
      mousePressed := false;
      resizeDirection := 0;
      startPos := None;
      startGeometry := None;
      geometry := initialGeometry;
      cursor := ArrowCursor;
      text := [];
    }

    method MousePressEvent(button: Button, globalPos: Point)
      requires Valid()
      modifies this
      ensures Valid()
      ensures State() == OnPress(old(State()), button, globalPos)
      ensures text == old(text)
    {
      if button == LeftButton {
        mousePressed := true;
        startPos := Some(globalPos);
        startGeometry := Some(geometry);
      }
    }

    /** globalPos is the pointer in screen coordinates; localPos is the same point
        mapped into the window, which the toolkit supplies. */
    method MouseMoveEvent(globalPos: Point, localPos: Point)
      requires Valid()
      modifies this
      ensures Valid()
      ensures State() == OnMove(old(State()), globalPos, localPos)
      ensures text == old(text)
    {
      if !mousePressed {
        var width, height := Width(geometry), Height(geometry);
        resizeDirection := 0;
        if localPos.x <= Margin {
          resizeDirection := resizeDirection | LeftEdge;
        }
        assert resizeDirection == (if localPos.x <= Margin then LeftEdge else 0);
        if localPos.x >= width - Margin {
          resizeDirection := resizeDirection | RightEdge;
        }
        assert resizeDirection == (if localPos.x <= Margin then LeftEdge else 0)
          | (if localPos.x >= width - Margin then RightEdge else 0);
        if localPos.y <= Margin {
          resizeDirection := resizeDirection | TopEdge;
        }
        assert resizeDirection == (if localPos.x <= Margin then LeftEdge else 0)
          | (if localPos.x >= width - Margin then RightEdge else 0)
          | (if localPos.y <= Margin then TopEdge else 0);
        if localPos.y >= height - Margin {
          resizeDirection := resizeDirection | BottomEdge;
        }
        assert resizeDirection == EdgesAt(localPos, width, height);
        cursor := CursorFor(resizeDirection);
        return;
      }

      var delta := Sub(globalPos, startPos.value);
      if resizeDirection != 0 {
        // The handler's local rectangle is the stored start rectangle itself, so
        // every edge update below is written into startGeometry.
        ghost var s0 := startGeometry.value;
        ghost var left := if Has(resizeDirection, LeftEdge) then s0.left + delta.x else s0.left;
        ghost var top := if Has(resizeDirection, TopEdge) then s0.top + delta.y else s0.top;
        ghost var right := if Has(resizeDirection, RightEdge) then s0.right + delta.x else s0.right;
        if Has(resizeDirection, LeftEdge) {
          startGeometry := Some(startGeometry.value.(left := startGeometry.value.left + delta.x));
        }
        assert startGeometry == Some(Rect(left, s0.top, s0.right, s0.bottom));
        if Has(resizeDirection, TopEdge) {
          startGeometry := Some(startGeometry.value.(top := startGeometry.value.top + delta.y));
        }
        assert startGeometry == Some(Rect(left, top, s0.right, s0.bottom));
        if Has(resizeDirection, RightEdge) {
          startGeometry := Some(startGeometry.value.(right := startGeometry.value.right + delta.x));
        }
        assert startGeometry == Some(Rect(left, top, right, s0.bottom));
        if Has(resizeDirection, BottomEdge) {
          startGeometry := Some(startGeometry.value.(bottom := startGeometry.value.bottom + delta.y));
        }
        assert startGeometry == Some(Resized(s0, resizeDirection, delta));
        geometry := Normalized(startGeometry.value);
      } else {
        geometry := MoveTo(geometry, Add(TopLeft(geometry), delta));
        startPos := Some(globalPos);
      }
    }

    /** Whatever the button, the gesture ends. */
    method MouseReleaseEvent(button: Button)
      requires Valid()
      modifies this
      ensures Valid()
      ensures State() == OnRelease(old(State()))
      ensures text == old(text)
    {
      mousePressed := false;
      resizeDirection := 0;
      cursor := ArrowCursor;
    }

    /** The escape button: the buffer is replaced by its escaped form. The rewrite
        cannot fail, so the handler's failure branch is never taken. */
    method EscapeJson()
      requires Valid()
      modifies this
      ensures Valid()
      ensures text == JsonEscape.Escape(old(text))
      ensures State() == old(State())
    {
      text := JsonEscape.Escape(text);
    }
  }

  /** A client of the class: a drag gesture on a fresh window, reasoned about from
      the handlers' contracts alone. */
  method DragClient(g: Rect, p0: Point, p1: Point, p2: Point) returns (w: JsonFormatter)
    ensures TopLeft(w.geometry) == Add(TopLeft(g), Sub(p2, p0))
    ensures Width(w.geometry) == Width(g) && Height(w.geometry) == Height(g)
    ensures !w.mousePressed && w.cursor == ArrowCursor
  {
    w := new JsonFormatter(g);
    w.MousePressEvent(LeftButton, p0);
    w.MouseMoveEvent(p1, p1);
    w.MouseMoveEvent(p2, p2);
    w.MouseReleaseEvent(LeftButton);
  }
}
