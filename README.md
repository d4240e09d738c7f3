# flit-stalker, modelled in Dafny

flit-stalker is a browser viewer for bus traces. A grid lists trace
messages, one page at a time. Each message goes from a source scope to a
target scope at a timestamp. A transaction sequence diagram draws every
scope as a vertical swimlane and every message as an arrow between two
lanes. Selecting a row decodes the message's flit with a flit decoder. A
flit is a wide integer payload that the decoder cuts into named bit ranges:
each range is shown as a number, its bit range and an optional symbolic
name. A small C program serves the page's files.

This project models the logic under that UI and proves what it does:

- `numbers.dfy` (module `Numbers`). The exact-integer helpers:
  - powers of two;
  - `Math.trunc`;
  - Number and BigInt `toString(base)`, with its round trip.
- `flit.dfy` (module `FlitDecoder`):
  - bit-field extraction on unbounded integers;
  - the `Bits`, `Number` and `Decoded` strings;
  - the `FlitField` and `Flit` classes, including the setter that
    re-decodes every field in place.
- `sequence_diagram.dfy` (module `SequenceDiagram`):
  - boxes that recompute their corners;
  - the swimlane registry keyed by scope;
  - the append-only message list;
  - the padded time window;
  - the truncated time/pixel maps;
  - the zoom window arithmetic;
  - the hover, drag and hit-test handlers;
  - what a redraw changes: the label positions.
- `draft_swimlane.dfy` (module `DraftSwimlane`). The older diagram draft:
  - the node box geometry;
  - `addNode` shifting positions by the x origin;
  - the message list;
  - the vertical scale and its zoom steps.
- `page.dfy` (module `Page`). The page script:
  - the `dataBound` rebuild of the diagram from the current grid page;
  - the table of decoders;
  - the grid's selection handler.
- `server.dfy` (module `Server`):
  - the MIME table;
  - how a request path in a 256-char buffer becomes the name of the
    file to open and its extension.

How the model represents the source:

- Times and pixel coordinates are `real`. `Math.trunc` is `Numbers.Trunc`,
  which truncates toward zero.
- BigInt shifts are floor divisions by powers of two. A BigInt mask by
  `2^w - 1` is the Euclidean remainder by `2^w`.
- `measureText` is a parameter of the diagram (`measure`) returning a
  non-negative width. Canvas heights are parameters too.
- A grid row is the datatype `TraceRecord`. It carries:
  - `id`, `Source Scope`, `Target Scope`, `Timestamp`, `endTs` and `Message`;
  - the row's `decoder` name and `flit`, each optional.
- `Object.values` of the lane object is taken in insertion order. The
  diagram keeps that order explicitly, in its `order` field.
- The source's `BoundingBox`, `Label` and `Swimlane` classes are one class,
  `SequenceDiagram.Label`. `Label` and `Swimlane` add only the text to the
  box.

Where the code does something other than a reader might expect, the model
does what the code does:

- `addOrUpdateMessage` never updates a message by id. It always appends.
- `canvasSetTime` has no guard against an empty or inverted window. For a
  zero-length window the pixel map divides by zero, which the model shows
  as `None`.
- The two time/pixel maps truncate, so they are not inverse to each other
  (`YOffsetRoundTripLoses`).
- `zoomIn` only computes the grid filter bounds. It leaves the diagram's
  own window as it is.
- A new lane's centre is 100 px right of the last lane's right edge. It is
  not 100 px from the last lane's centre.
- The exit event of a header hover from one lane straight to another names
  the new lane, so the exit handler clears nothing. The enter event that
  follows replaces the active lane.
- The MIME test is an exact, case-sensitive match.
- The extension is taken after the last dot anywhere in the path,
  including a dot in a directory name.

## Model

| member | source | states |
|---|---|---|
| `Numbers.Trunc` | transaction-sequence-diagram.js:826 | Math.trunc: the integer part, no more than 1 away, on the side of zero |
| `Numbers.TruncMonotone` | transaction-sequence-diagram.js:826 | truncation toward zero keeps order |
| `Numbers.NatToString` | flit.js:33 | toString(base) of a non-negative number: at least one digit, and a single digit exactly when the number is below the base |
| `Numbers.IntToString` | flit.js:37 | BigInt toString(base): at least one character, and a leading '-' exactly for a negative value |
| `Numbers.NatToStringRoundTrip` | flit.js:33 | decimal or hex digits of a number read back as that number |
| `Numbers.NatToStringNoLeadingZero` | flit.js:37 | a numeral of several digits does not start with 0 |
| `Numbers.IntToStringInjective` | flit.js:37 | BigInt toString(16): different integers are written differently, sign included |
| `FlitDecoder.FieldValue` | flit.js:61-64 | the extracted field lies in [0, 2^(msb-lsb+1)); a one-bit field is 0 or 1; a zero-width field (msb = lsb - 1) is 0 |
| `FlitDecoder.FieldValueBits` | flit.js:62-63 | bit j of the field is bit lsb + j of the raw value for j <= msb - lsb, and clear above that, for any raw value, negative ones too |
| `FlitDecoder.BitRange` | flit.js:32-34 | the Bits text is msb's and lsb's decimal digits in brackets, with one colon, right after msb's digits |
| `FlitDecoder.BitRangeRoundTrip` | flit.js:32-34 | the Bits text "[msb:lsb]" parses back to exactly (msb, lsb) |
| `FlitDecoder.HexNumber` | flit.js:36-38 | the Number text starts with "0x" and has at least one digit after it |
| `FlitDecoder.HexNumberRoundTrip` | flit.js:36-38 | after "0x" comes a lower-case hex numeral without leading zeros that reads back as the value ("0x0" for zero) |
| `FlitDecoder.HexNumberInjective` | flit.js:36-41 | distinct values get distinct Number texts, so a name key matches one value only |
| `FlitDecoder.DecodedLabel` | flit.js:40-42 | Decoded is the non-empty name stored under the Number text; otherwise, with no table, no entry or an empty name, it is the Number text |
| `FlitDecoder.DecodedLabelIgnoresOtherKeys` | flit.js:40-42 | an entry under any key other than the value's own Number text never changes Decoded |
| `FlitDecoder.JoinSpacesAppend` | flit.js:101 | join(" ") grows left to right: one more part adds one space and that part |
| `FlitDecoder.FlitField.constructor` | flit.js:52-58 | the field copies name, msb, lsb, valueNames and value from its description |
| `FlitDecoder.FlitField.From` | flit.js:61-64 | from(v) sets value to the extracted field of v; name, bounds and names are constants |
| `FlitDecoder.FlitField.ToString` | flit.js:66-68 | "name:Decoded": for a name without a colon, the first colon ends the name and the Decoded label follows it |
| `FlitDecoder.FieldStringsSnoc` | flit.js:101 | the mapped field strings are those of all fields but the last, followed by the last field's string |
| `FlitDecoder.Flit.constructor` | flit.js:92-98 | one fresh field per description, in order, no raw value; an empty list gives no fields |
| `FlitDecoder.Flit.SetValue` | flit.js:82-87 | the raw value is stored and every field holds its extraction of it; the field list is unchanged |
| `FlitDecoder.Flit.ToString` | flit.js:100-102 | the field strings joined by single spaces: "" for no fields, the one field's string for one, and otherwise the join of all but the last, a space, and the last field's string |
| `SequenceDiagram.Label.Valid` | transaction-sequence-diagram.js:31-37 | corners from _calcBB give a box exactly width by height, centred on the centre |
| `SequenceDiagram.Label.Contains` | transaction-sequence-diagram.js:531-532 | a point is inside a consistent box exactly when it is strictly within half the width of the centre horizontally and half the height vertically |
| `SequenceDiagram.Label.constructor` | transaction-sequence-diagram.js:78-83 | the label takes the text, centre, width and height it is given, with consistent corners |
| `SequenceDiagram.Label.CalcBB` | transaction-sequence-diagram.js:31-37 | the corners agree with the centre and size again |
| `SequenceDiagram.Label.SetCenter` | transaction-sequence-diagram.js:40-43 | the centre moves, the size stays, the corners follow |
| `SequenceDiagram.Label.SetWidth` | transaction-sequence-diagram.js:57-60 | a width change keeps the centre and the height |
| `SequenceDiagram.Label.SetHeight` | transaction-sequence-diagram.js:70-73 | a height change keeps the centre and the width |
| `SequenceDiagram.Message.constructor` | transaction-sequence-diagram.js:168-208 | the message copies the record's data with time = Timestamp, and the given lanes and label |
| `SequenceDiagram.PaddedWindow` | transaction-sequence-diagram.js:830-849 | the padded window keeps the midpoint, is (1 + 100/H) times as long, contains the request when it is not inverted, and is inverted too otherwise |
| `SequenceDiagram.Arrow` | transaction-sequence-diagram.js:723-734 | each end is pulled exactly 5 px toward the other lane (+5 at the start and -5 at the end when startX <= endX, the reverse otherwise), keeping the midpoint; a message to its own lane points 10 px left |
| `SequenceDiagram.FirstHit` | transaction-sequence-diagram.js:525-563 | the position of the first box that strictly contains the point, none before it does; none when no box does |
| `SequenceDiagram.FindHit` | transaction-sequence-diagram.js:862-900 | the scan with break finds exactly FirstHit |
| `SequenceDiagram.LanesInOrder` | transaction-sequence-diagram.js:527 | the lanes of the registry in key insertion order |
| `SequenceDiagram.LabelsOf` | transaction-sequence-diagram.js:862-863 | the label boxes of the messages, in message order |
| `SequenceDiagram.TimeToYOffset` | transaction-sequence-diagram.js:825-827 | the pixel row of t truncated toward zero; row 0 for the window's start; no row (NaN or an infinity) for a zero-length window |
| `SequenceDiagram.TimeToYOffsetMonotone` | transaction-sequence-diagram.js:825-827 | a later time is never drawn higher up |
| `SequenceDiagram.YOffsetToTime` | transaction-sequence-diagram.js:820-822 | the time of a row is start + (row truncated / height) * duration, truncated toward zero; any row in [0, 1) reads as the truncated start |
| `SequenceDiagram.YOffsetToTimeEnds` | transaction-sequence-diagram.js:820-822 | row 0 reads as the truncated start; the row at the canvas height reads as the truncated end |
| `SequenceDiagram.YOffsetRoundTripLoses` | transaction-sequence-diagram.js:820-827 | a concrete window where reading a row as a time and drawing that time does not give the row back |
| `SequenceDiagram.StoreTwice` | transaction-sequence-diagram.js:642-647 | looking up or adding both scopes leaves the keys grown by exactly those two and every stored lane in place |
| `SequenceDiagram.OrderTwice` | transaction-sequence-diagram.js:642-647 | the key insertion order after the two lookups is AddScopes of the order before |
| `SequenceDiagram.AddLaneKeeps` | transaction-sequence-diagram.js:625 | storing a lane under a new key keeps keys unique and messages attached to registered lanes |
| `SequenceDiagram.AddMessageKeeps` | transaction-sequence-diagram.js:660-662 | appending a message between registered lanes with a new label box keeps both invariants |
| `SequenceDiagram.Diagram.constructor` | transaction-sequence-diagram.js:273-341 | an empty diagram with the padded initial window and nothing active, hovered, selected or dragged |
| `SequenceDiagram.Diagram.CanvasTimeToYOffset` | transaction-sequence-diagram.js:825-827 | the diagram's time-to-row map: no row exactly when the window has zero length, and row 0 for the window's start |
| `SequenceDiagram.Diagram.CanvasYOffsetToTime` | transaction-sequence-diagram.js:820-822 | the diagram's row-to-time map: any row in [0, 1) reads as the truncated window start |
| `SequenceDiagram.Diagram.CanvasSetTime` | transaction-sequence-diagram.js:830-849 | the window becomes PaddedWindow of the request, and the duration is end minus start |
| `SequenceDiagram.Diagram.ZoomIn` | transaction-sequence-diagram.js:759-778 | the filter is [start, start + duration/1.2], inside the window when it is not empty; the window itself is not changed |
| `SequenceDiagram.Diagram.ZoomOut` | transaction-sequence-diagram.js:780-816 | zoomAction is set; the filter is [start, start + 1.2 duration]; the window becomes its padding, unless the grid has no filter, when the push throws and the window stays |
| `SequenceDiagram.Diagram.AddSwimlane` | transaction-sequence-diagram.js:609-633 | the new lane is centred at the last lane's x2 (or 0) + 100 and at half the header height, measured wide and 22 high; it is stored under the text and is the last one added |
| `SequenceDiagram.Diagram.LaneFor` | transaction-sequence-diagram.js:642-647 | an existing lane is reused and nothing changes; a missing one is added by AddSwimlane |
| `SequenceDiagram.Diagram.LanesFor` | transaction-sequence-diagram.js:642-647 | both scopes get a lane, old lanes stay, the key order grows by AddScopes; the last lane added and the position of each new lane follow the order source then target |
| `SequenceDiagram.Diagram.AppendMessage` | transaction-sequence-diagram.js:649-664 | one new message is appended and selected; its label is midway between the lanes at time + 25 |
| `SequenceDiagram.Diagram.AddOrUpdateMessage` | transaction-sequence-diagram.js:639-666 | keys grow to exactly the old ones plus both scopes, old lanes stay, a lane is new only for a missing scope, and the messages grow by exactly one appended message, whatever its id; the last lane added is the target's lane when the target was missing, else the source's when it was, else unchanged; a new source lane sits 100 px right of the old last lane's right edge (or of 0), and a new target lane 100 px right of the new source lane's right edge when that was new too |
| `SequenceDiagram.Diagram.LaneEnter` | transaction-sequence-diagram.js:579-584 | the entered lane becomes active |
| `SequenceDiagram.Diagram.LaneExit` | transaction-sequence-diagram.js:586-592 | the active lane is cleared only when the event names it |
| `SequenceDiagram.Diagram.HeaderMouseDown` | transaction-sequence-diagram.js:486-497 | a drag starts only when a lane is active |
| `SequenceDiagram.Diagram.HeaderMouseUp` | transaction-sequence-diagram.js:499-501 | the drag ends |
| `SequenceDiagram.Diagram.DragLane` | transaction-sequence-diagram.js:503-517 | left of 118 + width/2 nothing changes; otherwise the lane's centre x becomes clientX - 118, its corners follow, and y, width and height stay |
| `SequenceDiagram.Diagram.HoverLane` | transaction-sequence-diagram.js:519-577 | the active lane becomes the first lane in registry order whose box strictly holds the point, or none |
| `SequenceDiagram.Diagram.LabelEnter` | transaction-sequence-diagram.js:916-920 | the entered message becomes hovered |
| `SequenceDiagram.Diagram.LabelExit` | transaction-sequence-diagram.js:922-928 | the hovered message is cleared only when the event names it |
| `SequenceDiagram.Diagram.CanvasMouseMove` | transaction-sequence-diagram.js:853-914 | the hovered message becomes the first one in message order whose label box strictly holds the mouse, or none |
| `SequenceDiagram.Diagram.PlaceCaption` | transaction-sequence-diagram.js:719-751 | the label is centred on the arrow's midpoint: between the lane centres and between the rows of time and endTs; its size stays; in a zero-length window it keeps its row |
| `SequenceDiagram.Diagram.Draw` | transaction-sequence-diagram.js:696-756 | after a redraw every message's label is placed on its arrow, no label changes size, and no lane changes; in a zero-length window every label keeps its row |
| `DraftSwimlane.MeshNode.constructor` | swimlane.js:4-26 | the box is the text width + 10 wide and 22 high, at row 10, with x1 = x - textWidth/2 - 2 |
| `DraftSwimlane.MeshNode.CalcBB` | swimlane.js:29-31 | only x1 changes, to x - textWidth/2 - 2 |
| `DraftSwimlane.MeshNode.Hit` | swimlane.js:100-103 | a node built with its measured box is hit exactly when the point is strictly right of x1 and left of x1 + textWidth + 10, and strictly between rows 10 and 32 |
| `DraftSwimlane.HitBand` | swimlane.js:100-103 | a node is hit exactly for rows strictly between 10 and 32 and columns strictly between x - textWidth/2 - 2 and x + textWidth/2 + 8 |
| `DraftSwimlane.BoxOffCentre` | swimlane.js:13-31 | the box's middle is 3 px right of the node's x, though x itself is inside the box |
| `DraftSwimlane.RowOf` | swimlane.js:243-244 | time 0 is on the axis (row 40), later times are below it, and the distance times the scale is the time |
| `DraftSwimlane.RowMonotone` | swimlane.js:243-244 | a later time is drawn lower |
| `DraftSwimlane.RowScaled` | swimlane.js:300-308 | multiplying the scale by k divides every row's distance from the axis by k |
| `DraftSwimlane.ZoomNotUndone` | swimlane.js:300-308 | zooming in then out scales by 0.99, so rows move away from the axis |
| `DraftSwimlane.Swimlane.constructor` | swimlane.js:67-91 | no nodes, no messages, scale 1, duration end - start |
| `DraftSwimlane.Swimlane.AddNode` | swimlane.js:209-216 | one fresh node is appended at x + 118, boxed around its measured width |
| `DraftSwimlane.Swimlane.AddMessage` | swimlane.js:218-222 | exactly one message with the id and the two endpoints is appended |
| `DraftSwimlane.Swimlane.ZoomIn` | swimlane.js:300-303 | the scale is multiplied by 1.1 |
| `DraftSwimlane.Swimlane.ZoomOut` | swimlane.js:305-308 | the scale is multiplied by 0.9 |
| `DraftSwimlane.Swimlane.EndpointPoint` | swimlane.js:243-244 | an endpoint is drawn on its node's x, at the row of its time |
| `Page.MinTime` | main.js:124-136 | the accumulator ends at most MAX_SAFE_INTEGER and no later than any start time, equal to one of them unless it kept its start value |
| `Page.MaxEnd` | main.js:124-136 | the accumulator ends at least MIN_SAFE_INTEGER and no earlier than any end time, equal to one of them unless it kept its start value |
| `Page.PageExtremes` | main.js:124-136 | on a non-empty page within the safe range the accumulators are the least start time and the greatest end time |
| `Page.InstantPage` | main.js:124-139 | a page whose messages all start and end at one instant gets a zero-length window |
| `Page.ScopeOrderDistinct` | transaction-sequence-diagram.js:642-647 | the lane keys that a page's lookups create, in first-named order, hold each key once |
| `Page.ScopeOrderNames` | main.js:128-136 | a key is in that order exactly when some item names it at one end |
| `Page.KeysNamed` | main.js:128-136 | a registry in that order holds exactly the scopes the page names |
| `Page.Clear` | main.js:120-122 | no messages, no lanes, no last lane |
| `Page.PlacedAfter` | transaction-sequence-diagram.js:609-633 | in a laid-out registry the first lane is placed from x = 0 and every later lane from the right edge of the lane created before it |
| `Page.NextEdge` | transaction-sequence-diagram.js:609-614 | the edge the next new lane is placed from is the last lane's right edge, which accumulates 100 px plus half of each earlier lane's measured width |
| `Page.PlacedAppend` | transaction-sequence-diagram.js:609-633 | a lane for a new key, placed from the last lane's right edge, keeps every lane placed |
| `Page.PlacedStep` | transaction-sequence-diagram.js:642-647 | the lanes one addOrUpdateMessage looks up or creates keep every lane placed in the new key order |
| `Page.LaidOutStep` | transaction-sequence-diagram.js:639-666 | one addOrUpdateMessage keeps the diagram laid out: lanes placed in key order, and the last lane added is the last key's lane |
| `Page.AddItem` | main.js:128-135 | one step of the forEach: one message carrying the item is appended and selected, the key order grows by AddScopes, and the diagram stays laid out |
| `Page.AddPage` | main.js:124-136 | message i holds item i, for every item, in page order; lanes are exactly the named scopes, placed left to right in first-named order, each centred 100 px right of the right edge of the one before (the first at x = 100); the last lane added is the last key's lane (null on an empty page); the last item's message is selected, and an empty page leaves the selection alone; the accumulators are MinTime and MaxEnd |
| `Page.Rebuild` | main.js:120-136 | emptying the diagram and adding the page leaves it Rebuilt from the page and the old selection, with the two accumulators |
| `Page.SetWindow` | main.js:138-142 | without a zoom in flight the window is the padded span; with one it stays; the flag is cleared either way; what the rebuild built (messages, lanes, their placement, the selection) stays as it was |
| `Page.DataBound` | main.js:120-143 | the diagram is rebuilt to show exactly the page: message i carries item i, the lanes are exactly the named scopes, placed left to right in first-named order, and the last lane added is the last key's lane (null for an empty page); the last item is selected, or the old selection stays on an empty page; without a zoom in flight the window is the padded span of the page, with one it stays; the zoom flag ends cleared |
| `Page.BuildDecoders` | main.js:162-164 | one new Flit per decoder description, under its name, built from its fields, each field a new object; no two names share a Flit or a field |
| `Page.TouchedSeparate` | main.js:70-77 | in a table built that way, what the handler may write for a row is apart from every other name's decoder and all its fields |
| `Page.DecoderOf` | main.js:75 | the row's decoder, present exactly when the row names a decoder the table has |
| `Page.GridChange` | main.js:70-77 | the row's message is selected; ok holds exactly when the table stores the row's decoder and the row has a flit, and then that decoder decodes the flit into every field; otherwise no decoder changes |
| `Server.NulIndex` | server.c:47 | the position of the first NUL, or the buffer end |
| `Server.CStr` | server.c:47 | the C string is the buffer up to its first NUL and holds no NUL |
| `Server.Strlen` | server.c:47 | strlen is the length of the C string |
| `Server.MimeType` | server.c:17-25 | a known extension gets its table entry; every other string gets application/octet-stream |
| `Server.MimeTypeExact` | server.c:17-25 | the match neither folds case nor trims, and the empty string is unknown |
| `Server.LastIndexOf` | server.c:50 | the last position of the character, none exactly when it does not occur |
| `Server.Extension` | server.c:49-55 | the extension is a suffix of the path, no longer than it, with no dot |
| `Server.ExtensionAfterLastDot` | server.c:50-55 | the extension is the text after a dot of the path and holds no dot |
| `Server.NoDotOctetStream` | server.c:50-58 | a path with no dot has the empty extension and is served as an octet stream |
| `Server.DotInDirectory` | server.c:50-58 | "a.b/c" has extension "b/c", an octet stream |
| `Server.DropFirst` | server.c:46-47 | a non-empty string is its first character followed by the result; the empty string stays empty |
| `Server.Served` | server.c:42-47 | "/" is served index.html; any other non-empty path loses its first character and so one in length |
| `Server.RootIsHtml` | server.c:42-58 | the root is served index.html as text/html |
| `Server.IsRoot` | server.c:42 | the test holds exactly when the C string is "/" |
| `Server.CopyIndex` | server.c:43 | the buffer starts with "/index.html" and its NUL; the rest stays |
| `Server.RemoveLeadingChar` | server.c:47 | the C string afterwards is the old one without its first character; the buffer from the old NUL on is unchanged |
| `Server.LastDot` | server.c:50 | strrchr finds the last dot of the C string |
| `Server.ExtensionOf` | server.c:50-55 | the text after that dot, or "" without one |
| `Server.ResolveRequest` | server.c:42-58 | the buffer holds the served name of the request, and the type is that of its extension |

## Left out

- Drawing is left out: clearing, axes, gradients, colours, `strokeRect`,
  `fillText` and the arrowhead trigonometry of both diagrams. Only the state
  a redraw changes is modelled: the label centres in `Draw`.
- IEEE floating point is left out. Times and pixels are exact reals, so
  rounding and overflow past 2^53 are not modelled.
- DOM, jQuery and Kendo wiring is left out. This covers the time-trough
  selection drag, the scroll corner text, the grid's filters, menus and
  toolbars, and the click handler that selects the hovered message in the
  grid. `fetch` and JSON loading are left out too.
- `CustomEvent` dispatch is left out. The enter and exit handlers are
  methods, and the mousemove methods call them in the order the events
  are dispatched.
- The header `mousemove` handler is modelled as its two branches,
  `DragLane` and `HoverLane`. The caller picks the branch by `mouseDown`.
- The `redraw` calls after the handlers, after `dataBound` and after a
  grid selection are left out. Their only model-relevant effect is `Draw`.
- `scrollToMessage` is left out. It reads `this.duration`, which is never
  set.
- `Label.instances` is left out. It is a registry of every label, and
  nothing reads it.
- `_padding` is left out. It is stored but never used.
- The `timescale` text, shown only in the scroll corner, is left out.
  `xorigin` is the constant `XORIGIN`; `yorigin` and `canvasWidth` are
  never read by the modelled code and are left out.
- `swimlane.js` node drag (the mousedown and mousemove handlers) is left
  out. Mousedown records the hit node as `activeNode` and sets `mouseDown`
  on the canvas element; mousemove then moves that node's x to `clientX`
  and redraws, without calling `calcBB`, so the node's box keeps its old
  `x1`; nothing clears `mouseDown`, so the drag never ends. Only the box
  test is modelled, as `MeshNode.Hit` with `HitBand`.
- `swimlane.js` `drawNode` and `draw` are left out as drawing.
  `drawMessage` is modelled only for its endpoint positions.
- `parseInt` in `canvasYOffsetToTime` is modelled as truncation of the
  offset. Its string forms, such as exponent notation and leading text,
  are not.
- `BigInt(dataItem.flit)` is modelled as an integer that the row either
  has or lacks. Parsing of strings and rejection of fractional numbers
  are not modelled.
- Object key order is modelled as insertion order. JavaScript puts integer-
  like keys such as "12" first in numeric order. A scope named like an
  integer would be drawn in a different order than `LanesInOrder` gives.
- The lane registry is reset to an array (`xsd.swimlanes = []`), so a scope
  named like one of its properties makes the rebuild throw at that row.
  "length" reads 0, so a lane is made for it, and storing that lane under
  "length" (transaction-sequence-diagram.js:625) throws a RangeError
  (invalid array length). "map", "constructor" and the like read an
  inherited function, which is taken as the lane; reading its centre
  (transaction-sequence-diagram.js:653-654) throws a TypeError. Either
  way the forEach of `dataBound` stops at that row: later rows get no
  message, and `canvasSetTime`, the `zoomAction` reset and `draw`
  (main.js:138-142) are not reached. The model treats every name as
  absent until it is stored and never throws there.
- The decoder table is keyed by the name string. A row with no decoder
  reads `flitDecoders[undefined]`, which the model shows as a failed lookup;
  a decoder named "undefined" would match it in the source. The table is a
  plain object (main.js:27), so a row whose decoder is named like an
  inherited property, such as "constructor" or "toString", finds a function
  there; setting its `value` (main.js:76) does not throw, and no Flit
  changes. The model gives `ok == false` for such a row, as for any name
  the table does not store, so `ok` is false exactly when no stored decoder
  is found or the row has no flit, not exactly when the source throws.
- `SequenceDiagram.Diagram.Draw` and `SequenceDiagram.Diagram.PlaceCaption`:
  in a zero-length window the source centres each label at a NaN or
  infinite row. Reals have neither, so the model keeps each label's row
  there and states only its horizontal centre.
- `dataBound` does not reset `activeSwimlane` or `hoveredMsg`. The model
  keeps these references to the old lanes and messages too, but proves
  nothing about them.
- The grid row is a value (`TraceRecord`). `addOrUpdateMessage` also
  writes `start`, `end`, `time` and `label` onto the caller's grid item
  before copying it (transaction-sequence-diagram.js:642-658); the model
  builds the message from the record and does not show those writes to
  the item.
- `FlitDecoder.FlitField.From` is stated for any bounds. When
  msb < lsb - 1 the shift count is negative, so the mask is -1 and the
  value is only the shifted raw value; no bound is given for that case.
- `Server.ResolveRequest` requires a NUL inside the 256-char buffer. The
  source's `sscanf` can write past the buffer for a longer path, and that
  overflow is not modelled.
- `server.c` I/O is left out: reading the request, `sscanf` of the method
  and path, `open`, `fstat`, the response writes, the socket loop and
  `getifaddrs`.
- `loupe.js` is a demo script with no logic of its own, and is not part of
  this model.
