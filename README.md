# JSON formatter window: escape rewrite and frameless-window pointer handling

This project models the two pieces of logic in the JSON formatter utility
(`json_formatter.py`) that belong to the program itself rather than to the GUI
toolkit or the JSON library. It proves properties of both.

- **The escape button** (`escape_json`). The text buffer is replaced by
  `text.replace('\\', '\\\\').replace('"', '\\"')`. This is the quoting part of the
  string escaping in section 7 of RFC 8259, limited to the reverse solidus and
  the quotation mark. Control characters are copied unchanged. Module
  `JsonEscape` models `str.replace` for a one-character pattern and chains it as
  the source does. It proves that the chain equals a one-pass,
  character-by-character escaping, so no inserted backslash gets doubled. It
  also proves the output length, that the output reads back to the input, and
  that every quotation mark in the output follows a backslash.
- **The frameless window's pointer handlers** (`mousePressEvent`,
  `mouseMoveEvent`, `mouseReleaseEvent`). The state is: the pressed flag, a
  4-bit Qt edge mask (Top = 1, Left = 2, Right = 4, Bottom = 8), the press point,
  the start rectangle and the window rectangle. Module `Interaction` describes
  each handler as a function on a `Window` value and composes them over event
  sequences. Module `Formatter` holds the class `JsonFormatter`, whose fields
  the handler methods update in place, step by step. Each method is proved to
  produce exactly the state the matching function describes. Module `Geometry`
  holds points and rectangles, `QRect.normalized()` and `QWidget.move`.

Behaviour of the code that the model keeps as written:

- **Cursor choice.** The first test of the cursor chain, `mask & (Left|Top) or
  mask & (Right|Bottom)`, covers all four bits. So every non-zero mask gives the
  NW-SE diagonal cursor, and the other diagonal, horizontal and vertical cursors
  are never chosen (`CursorFor`). The SizeBDiag, SizeHor and SizeVer branches
  (json_formatter.py:286-292) show that a separate cursor per edge combination
  was meant, but none of them can be reached.
- **Resizes add up.** During a resize, the handler's `geo` variable is the
  stored `start_geometry` object itself, so each `setLeft`/`setTop`/`setRight`/
  `setBottom` writes into it. Meanwhile `start_pos` is not updated. Each resize
  move therefore shifts the already-shifted rectangle by the pointer's offset
  from the original press point. Over a gesture, an active edge moves by the
  sum of those offsets, not by the pointer's net displacement
  (`ResizeAccumulates`, `ResizeOvershootExample`). A resize that adjusted an
  unchanged copy of the start rectangle would move an edge by the pointer's net
  displacement; the code writes into `start_geometry` instead
  (json_formatter.py:300-309). Only the window rectangle is normalised; the
  stored start rectangle keeps the un-normalised, accumulated result.
- **Drags.** A drag measures each move from the last recorded pointer position
  and then records the new one. Over a whole gesture, the window moves by
  exactly the pointer's net displacement (`DragFollowsPointer`, `DragGesture`).

## Model

| member | source | states |
|---|---|---|
| JsonEscape.EscapeIsCharwise | json_formatter.py:354 | replacing `\` first and then `"` is exactly the one-pass escaping `\` to `\\`, `"` to `\"`, every other character copied unchanged and in order; inserted backslashes are never doubled |
| JsonEscape.EscapeLength | json_formatter.py:354 | output length = input length + number of `\` + number of `"` |
| JsonEscape.EscapeRoundTrip | json_formatter.py:354 | reading the output back (`\x` stands for x) gives the input, so escaping loses no character and keeps their order |
| JsonEscape.EscapeQuotesPreceded | json_formatter.py:354 | every `"` in the output is immediately preceded by `\` |
| JsonEscape.EscapeExample | json_formatter.py:354 | `a\b"c` escapes to `a\\b\"c` |
| Formatter.JsonFormatter.EscapeJson | json_formatter.py:351-358 | the buffer becomes the escaped text; the pointer state is untouched |
| Geometry.Normalized | json_formatter.py:311 | the normalised rectangle has left <= right and top <= bottom, is built from the same coordinates on each axis, and equals the input when that is already normal |
| Geometry.MoveTo | json_formatter.py:314 | moving puts the top-left corner at the target and keeps width and height |
| Interaction.EdgesAt | json_formatter.py:268-280 | Left bit iff x <= 8, Right iff x >= width - 8, Top iff y <= 8, Bottom iff y >= height - 8 |
| Interaction.InteriorHasNoEdges | json_formatter.py:268-280 | the mask is 0 iff the pointer is strictly inside (8, width-8) x (8, height-8) |
| Interaction.CursorFor | json_formatter.py:283-294 | the cursor is Arrow iff the mask is 0, and SizeFDiag for every non-zero mask |
| Interaction.Initial | json_formatter.py:84-85 | a new window is not pressed, has mask 0, the arrow cursor, no recorded start values, and the given geometry |
| Interaction.Step | json_formatter.py:258-320 | every handler keeps the state consistent: while pressed, a start point and a start rectangle are recorded |
| Interaction.Run | json_formatter.py:258-320 | every state reached by any sequence of pointer events is consistent |
| Interaction.HoverRebuildsMask | json_formatter.py:266-295 | a move while not pressed sets the mask to the edge classification, whatever it was before, and the cursor from it, and changes nothing else; an interior pointer gives mask 0 and the arrow |
| Interaction.PressRecords | json_formatter.py:258-262 | a left press sets pressed and records the pointer and the window rectangle, keeping the last computed mask; other buttons change nothing |
| Interaction.ResizeMove | json_formatter.py:298-311 | a resize move shifts only the coordinates of active edges, by the pointer's offset from the press point on their axis; the start rectangle holds the un-normalised result; the window gets it normalised; the press point stays |
| Interaction.DragMove | json_formatter.py:312-315 | a drag move shifts the window by exactly the pointer's offset from the recorded position, keeps its size, and records the current pointer |
| Interaction.ReleaseResets | json_formatter.py:317-320 | a release from any state clears pressed and the mask, sets the arrow cursor, and leaves the window where it is |
| Interaction.DragFollowsPointer | json_formatter.py:312-315 | over any run of drag moves, the window's total displacement equals the pointer's, with its size kept |
| Interaction.DragGesture | json_formatter.py:258-320 | a left press with mask 0, any moves and a release move the window by the pointer's net displacement and leave the interaction at rest |
| Interaction.ResizeAccumulates | json_formatter.py:298-311 | over a run of resize moves, each active edge moves by the sum of the pointer's offsets from the fixed press point |
| Interaction.ResizeOvershootExample | json_formatter.py:298-311 | grabbing the left border (at x = 100) at x = 104 and moving to x = 105 then x = 106 takes the edge from 100 to 103, although the pointer moved 2 |
| Formatter.JsonFormatter.constructor | json_formatter.py:80-86 | a new window is in the initial state at its geometry, with an empty buffer |
| Formatter.JsonFormatter.MousePressEvent | json_formatter.py:258-262 | the fields change exactly as `OnPress` describes; the buffer is kept |
| Formatter.JsonFormatter.MouseMoveEvent | json_formatter.py:264-315 | the in-place edge bits, cursor, aliased start-rectangle updates and drag produce exactly the state `OnMove` describes |
| Formatter.JsonFormatter.MouseReleaseEvent | json_formatter.py:317-320 | the fields change exactly as `OnRelease` describes, for any button |
| Formatter.DragClient | json_formatter.py:258-320 | press, two moves and a release on a new window move it by the pointer's net displacement, from the handlers' contracts alone |

## Left out

- Qt coordinate mapping (`mapFromGlobal`): `MouseMoveEvent` takes the global pointer position and the window-local position as two inputs.
- `setMinimumSize(800, 600)` and `setGeometry`'s clamping to it are toolkit behaviour. The window rectangle is set to the normalised rectangle exactly.
- QRect's width is right - left + 1, and `normalized()` adjusts by one pixel when it swaps. The model uses right - left and a plain swap.
- The window position (`pos()`) is taken to be the top-left corner of the window rectangle. For a frameless window there is no frame between the two.
- Cursor shapes are recorded in a field. Drawing them is toolkit behaviour.
- `format_json`, `compress_json` and `validate_json` are left out. They only call `json.loads`/`json.dumps`, which are not part of this repository.
- `escape_json`'s status-bar messages and its failure branch are left out. The string rewrite cannot fail.
- `CustomDialog`, `initUI`, `create_title_button`, `create_main_button`, `set_github_theme`, stylesheets, `show_message`, the undo wiring and application start-up are widget construction with no logic.
- `darken_color` calls `QColor.darker`, a library routine whose code is not part of this model.
- Python raises an error if a move arrives while pressed before any left press. No event order can produce that, so the model makes it an invariant (`Consistent`) instead of an error path.
