/** The transaction sequence diagram (transaction-sequence-diagram.js):
    swimlanes keyed by scope name, messages drawn as arrows between them,
    a time window mapped onto the vertical pixel axis, and the mouse
    handlers that hover, select and drag. */
module SequenceDiagram {
  import opened Numbers

  /** how far right of the last lane's box a new lane's centre goes */
  const MIN_NODE_SPACING: real := 100.0
  /** assumed length of a message that carries one timestamp */
  const DEFAULT_DURATION: real := 50.0
  /** 12 + 2 * 5: the height given to lane headers and message labels */
  const LABEL_HEIGHT: real := 22.0
  /** the left margin the drag handler hard-codes */
  const DRAG_MARGIN: real := 118.0
  /** how far each arrow end is pulled in from its lane's line */
  const ARROW_INSET: real := 5.0
  /** the diagram's x origin */
  const XORIGIN: real := 0.0
  /** pixels' worth of time canvasSetTime adds above and below a window */
  const PAD_PIXELS: real := 50.0
  /** zoom factor of one zoom step */
  const ZOOM: real := 1.2

  /** a measured text width */
  type Width = w: real | 0.0 <= w

  datatype Point = Point(x: real, y: real)

  /** One trace row as the grid hands it over: the scopes, the timestamp,
      its end, the text, and the optional decoder name and payload. */
  datatype TraceRecord = TraceRecord(
    id: string,
    sourceScope: string,
    targetScope: string,
    timestamp: real,
    endTs: real,
    text: string,
    decoder: Option<string>,
    flit: Option<int>)

  // ---------------------------------------------------------------------
  // Boxes

  /** A BoundingBox with a text: the source's BoundingBox, Label and
      Swimlane, which add no state beyond the text, are one class here.
      A lane header and a message label are both Labels. */
  class Label {
    const text: string
    var cx: real
    var cy: real
    var width: real
    var height: real
    var x1: real
    var y1: real
    var x2: real
    var y2: real

    /** The corners are the ones _calcBB computes from centre and size, so
        the box is width wide, height high and centred on the centre. */
    ghost predicate Valid()
      reads this
      ensures Valid() ==> x2 - x1 == width && y2 - y1 == height
      ensures Valid() ==> (x1 + x2) / 2.0 == cx && (y1 + y2) / 2.0 == cy
    {
      x1 == cx - width / 2.0 && y1 == cy - height / 2.0 && x2 == x1 + width && y2 == y1 + height
    }

    /** The copy-like constructor: size first, then the centre setter. */
    constructor (text: string, center: Point, width: real, height: real)
      ensures this.text == text && cx == center.x && cy == center.y
      ensures this.width == width && this.height == height && Valid()
    {
      this.text, this.width, this.height := text, width, height;
      new;
      SetCenter(center);
    }

    /** _calcBB: recompute the corners from centre, width and height. */
    method CalcBB()
      modifies this`x1, this`y1, this`x2, this`y2
      ensures Valid()
    {
      x1 := cx - width / 2.0;
      y1 := cy - height / 2.0;
      x2 := x1 + width;
      y2 := y1 + height;
    }

    method SetCenter(to: Point)
      modifies this
      ensures cx == to.x && cy == to.y && width == old(width) && height == old(height) && Valid()
    {
      cx, cy := to.x, to.y;
      CalcBB();
    }

    /** Changing the width keeps the centre. */
    method SetWidth(value: real)
      modifies this
      ensures width == value && cx == old(cx) && cy == old(cy) && height == old(height) && Valid()
    {
      width := value;
      CalcBB();
    }

    /** Changing the height keeps the centre. */
    method SetHeight(value: real)
      modifies this
      ensures height == value && cx == old(cx) && cy == old(cy) && width == old(width) && Valid()
    {
      height := value;
      CalcBB();
    }

    /** The hit test of the mouse handlers: strictly inside the corners,
        that is, less than half the size away from the centre. */
    predicate Contains(x: real, y: real): (b: bool)
      reads this
      ensures Valid() ==> (b <==>
        cx - width / 2.0 < x < cx + width / 2.0 && cy - height / 2.0 < y < cy + height / 2.0)
    {
      x1 < x < x2 && y1 < y < y2
    }
  }

  /** A message as stored in the diagram; nothing of it changes after
      construction except the position of its label box. */
  class Message {
    const id: string
    const sourceScope: string
    const targetScope: string
    const timestamp: real
    const time: real
    const endTs: real
    const text: string
    const start: Label
    const end: Label
    const caption: Label

    constructor (r: TraceRecord, start: Label, end: Label, caption: Label)
      ensures Carries(this, r) && this.start == start && this.end == end && this.caption == caption
    {
      id, sourceScope, targetScope := r.id, r.sourceScope, r.targetScope;
      timestamp, time, endTs, text := r.timestamp, r.timestamp, r.endTs, r.text;
      this.start, this.end, this.caption := start, end, caption;
    }
  }

  /** m holds the record's data; its time is the record's Timestamp. */
  predicate Carries(m: Message, r: TraceRecord)
  {
    m.id == r.id && m.sourceScope == r.sourceScope && m.targetScope == r.targetScope &&
    m.timestamp == r.timestamp && m.time == r.timestamp && m.endTs == r.endTs && m.text == r.text
  }

  // ---------------------------------------------------------------------
  // Pure parts

  datatype Window = Window(start: real, end: real)

  /** canvasSetTime: the requested window widened by 50 pixels' worth of
      time on either side, for a canvas h pixels high.  No guard against an
      empty or inverted request. */
  function PaddedWindow(s: real, e: real, h: real): (w: Window)
    requires h > 0.0
    ensures w.end - w.start == (e - s) * (1.0 + 2.0 * PAD_PIXELS / h)
    ensures w.start + w.end == s + e
    ensures s <= e ==> w.start <= s && e <= w.end
    ensures s > e ==> w.start > s && e > w.end
  {
    var pad := (e - s) / h * PAD_PIXELS;
    Window(s - pad, e + pad)
  }

  /** The arrow for a message between lane lines at startX and endX: each
      end is pulled ARROW_INSET toward the other lane (when startX <= endX
      the edge is +5, otherwise -5), so the arrow keeps its midpoint; a
      message to its own lane gets edge +5 and points left. */
  function Arrow(startX: real, endX: real, y1: real, y2: real): (r: (Point, Point))
    ensures r.0.y == y1 && r.1.y == y2
    ensures (r.0.x + r.1.x) / 2.0 == (startX + endX) / 2.0
    ensures startX < endX ==> r.0.x > startX && r.1.x < endX
    ensures startX > endX ==> r.0.x < startX && r.1.x > endX
    ensures startX == endX ==> r.1.x == r.0.x - 2.0 * ARROW_INSET
    ensures r.0.x - startX == endX - r.1.x == (if startX <= endX then ARROW_INSET else -ARROW_INSET)
  {
    var edge := if startX <= endX then ARROW_INSET else -ARROW_INSET;
    (Point(startX + edge, y1), Point(endX - edge, y2))
  }

  /** The position of the first box that strictly contains (x, y). */
  function FirstHit(boxes: seq<Label>, x: real, y: real): (r: Option<nat>)
    reads boxes
    ensures r.Some? ==> r.value < |boxes| && boxes[r.value].Contains(x, y)
    ensures r.Some? ==> forall j :: 0 <= j < r.value ==> !boxes[j].Contains(x, y)
    ensures r.None? ==> forall j :: 0 <= j < |boxes| ==> !boxes[j].Contains(x, y)
  {
    if boxes == [] then None
    else if boxes[0].Contains(x, y) then Some(0)
    else match FirstHit(boxes[1..], x, y)
      case None => None
      case Some(k) => Some(k + 1)
  }

  /** The hit is the position of a containing box with none before it. */
  lemma FirstHitAt(boxes: seq<Label>, x: real, y: real, i: nat)
    requires i < |boxes| && boxes[i].Contains(x, y)
    requires forall j :: 0 <= j < i ==> !boxes[j].Contains(x, y)
    ensures FirstHit(boxes, x, y) == Some(i)
  {
  }

  /** There is no hit when no box contains the point. */
  lemma FirstHitNone(boxes: seq<Label>, x: real, y: real)
    requires forall j :: 0 <= j < |boxes| ==> !boxes[j].Contains(x, y)
    ensures FirstHit(boxes, x, y) == None
  {
  }

  /** The hit-test loop of the mousemove handlers: scan the boxes in order
      and stop at the first one that strictly contains the point. */
  method FindHit(boxes: seq<Label>, x: real, y: real) returns (found: bool, i: nat)
    ensures found <==> FirstHit(boxes, x, y).Some?
    ensures found ==> FirstHit(boxes, x, y) == Some(i) && i < |boxes|
  {
    found, i := false, 0;
    while i < |boxes|
      invariant 0 <= i <= |boxes|
      invariant forall j :: 0 <= j < i ==> !boxes[j].Contains(x, y)
    {
      if boxes[i].Contains(x, y) {
        found := true;
        FirstHitAt(boxes, x, y, i);
        return;
      }
      i := i + 1;
    }
    FirstHitNone(boxes, x, y);
  }

  /** The lanes in registry order (Object.values of the lane object). */
  function LanesInOrder(keys: seq<string>, lanes: map<string, Label>): (r: seq<Label>)
    ensures (forall k :: k in keys ==> k in lanes) ==>
      |r| == |keys| && forall i :: 0 <= i < |keys| ==> r[i] == lanes[keys[i]]
  {
    if keys == [] then []
    else (if keys[0] in lanes then [lanes[keys[0]]] else []) + LanesInOrder(keys[1..], lanes)
  }

  /** The label boxes of the messages, in message order. */
  function LabelsOf(ms: seq<Message>): (r: seq<Label>)
    ensures |r| == |ms| && forall i :: 0 <= i < |ms| ==> r[i] == ms[i].caption
  {
    if ms == [] then [] else [ms[0].caption] + LabelsOf(ms[1..])
  }

  /** Registry order after looking up a message's source and then target
      scope: each scope not yet present is appended when first seen. */
  function AddScopes(order: seq<string>, source: string, target: string): seq<string>
  {
    var o := if source in order then order else order + [source];
    if target in o then o else o + [target]
  }

  /** canvasTimeToYOffset: the pixel row of time t in a window starting
      at `start` and `duration` long, on a canvas h pixels high, truncated
      toward zero; None for a zero-length window, where the browser divides
      by zero and gets NaN or an infinity. */
  function TimeToYOffset(start: real, duration: real, h: real, t: real): (y: Option<int>)
    ensures y.None? <==> duration == 0.0
    ensures y.Some? && t == start ==> y.value == 0
    ensures y.Some? ==> var exact := (t - start) / duration * h;
      (exact >= 0.0 ==> y.value as real <= exact < y.value as real + 1.0) &&
      (exact < 0.0 ==> y.value as real - 1.0 < exact <= y.value as real)
  {
    if duration == 0.0 then None
    else Some(Trunc((t - start) / duration * h))
  }

  /** canvasYOffsetToTime: the time at pixel row `offset`, truncated
      toward zero; parseInt first drops the offset's fraction. */
  function YOffsetToTime(start: real, duration: real, h: real, offset: real): (t: int)
    requires h > 0.0
    ensures var exact := start + (Trunc(offset) as real / h) * duration;
      (exact >= 0.0 ==> t as real <= exact < t as real + 1.0) &&
      (exact < 0.0 ==> t as real - 1.0 < exact <= t as real)
    ensures 0.0 <= offset < 1.0 ==> t == Trunc(start)
  {
    var row := Trunc(offset);
    assert 0.0 <= offset < 1.0 ==> row == 0 && (row as real / h) * duration == 0.0;
    Trunc(start + (row as real / h) * duration)
  }

  /** A later time is never drawn higher up. */
  lemma TimeToYOffsetMonotone(start: real, duration: real, h: real, t1: real, t2: real)
    requires duration > 0.0 && h > 0.0 && t1 <= t2
    ensures TimeToYOffset(start, duration, h, t1).value <= TimeToYOffset(start, duration, h, t2).value
  {
    var q := h / duration;
    assert (t1 - start) / duration * h == (t1 - start) * q;
    assert (t2 - start) / duration * h == (t2 - start) * q;
    assert (t1 - start) * q <= (t2 - start) * q;
    TruncMonotone((t1 - start) * q, (t2 - start) * q);
  }

  /** The top pixel row is the window's start and, on a canvas a whole
      number of pixels high, the row just below the canvas is its end. */
  lemma YOffsetToTimeEnds(start: real, duration: real, h: real, offset: real)
    requires h > 0.0
    ensures 0.0 <= offset < 1.0 ==> YOffsetToTime(start, duration, h, offset) == Trunc(start)
    ensures offset == h == h.Floor as real ==> YOffsetToTime(start, duration, h, offset) == Trunc(start + duration)
  {
    if 0.0 <= offset < 1.0 {
      assert Trunc(offset) == 0;
    }
    if offset == h == h.Floor as real {
      assert Trunc(offset) == h.Floor;
      assert Trunc(offset) as real / h == 1.0;
    }
  }

  /** The two maps are not inverse to each other: on a 1000-pixel canvas
      showing 10 time units from 0, row 50 reads as time 0, which is drawn
      at row 0. */
  lemma YOffsetRoundTripLoses()
    ensures YOffsetToTime(0.0, 10.0, 1000.0, 50.0) == 0
    ensures TimeToYOffset(0.0, 10.0, 1000.0, YOffsetToTime(0.0, 10.0, 1000.0, 50.0) as real) == Some(0)
  {
    assert Trunc(50.0) == 50;
    assert 0.0 + (50.0 / 1000.0) * 10.0 == 0.5;
  }

  /** Storing the values found or made for two keys in turn, where a
      value found is the one already stored: the keys grow by the two,
      and every value already stored stays. */
  lemma StoreTwice<V>(lanes: map<string, V>, src: string, a: V, tgt: string, b: V)
    requires src in lanes ==> lanes[src] == a
    requires tgt in lanes[src := a] ==> lanes[src := a][tgt] == b
    ensures lanes[src := a][tgt := b].Keys == lanes.Keys + {src, tgt}
    ensures forall k :: k in lanes ==> lanes[src := a][tgt := b][k] == lanes[k]
    ensures lanes[src := a][tgt := b][src] == a && lanes[src := a][tgt := b][tgt] == b
  {
  }

  /** The insertion order after storing two keys in turn is AddScopes of
      the order before, when the order holds exactly the stored keys. */
  lemma OrderTwice<V>(order: seq<string>, lanes: map<string, V>, src: string, a: V, tgt: string)
    requires forall k :: k in lanes <==> k in order
    ensures var o := if src in lanes then order else order + [src];
      (if tgt in lanes[src := a] then o else o + [tgt]) == AddScopes(order, src, tgt)
  {
    var o := if src in lanes then order else order + [src];
    assert tgt in o <==> tgt in lanes[src := a];
  }

  /** Every lane key appears once in the insertion order, and the order
      holds exactly the keys. */
  ghost predicate Registered(order: seq<string>, lanes: map<string, Label>)
  {
    && (forall i, j :: 0 <= i < j < |order| ==> order[i] != order[j])
    && (forall k :: k in lanes <==> k in order)
  }

  /** Each message's ends are the lanes stored under its scopes. */
  ghost predicate Attached(ms: seq<Message>, lanes: map<string, Label>)
  {
    forall i :: 0 <= i < |ms| ==>
      ms[i].sourceScope in lanes && ms[i].start == lanes[ms[i].sourceScope] &&
      ms[i].targetScope in lanes && ms[i].end == lanes[ms[i].targetScope]
  }

  /** Each message has a label box of its own, which is no lane's box. */
  ghost predicate CaptionsApart(ms: seq<Message>, lanes: map<string, Label>)
  {
    && (forall i, j :: 0 <= i < j < |ms| ==> ms[i].caption != ms[j].caption)
    && (forall i, k :: 0 <= i < |ms| && k in lanes ==> ms[i].caption != lanes[k])
  }

  /** The label box of message i is no other message's and no lane's. */
  lemma ApartAt(ms: seq<Message>, lanes: map<string, Label>, i: nat)
    requires Attached(ms, lanes) && CaptionsApart(ms, lanes) && i < |ms|
    ensures forall j :: 0 <= j < |ms| ==> ms[j].start != ms[i].caption && ms[j].end != ms[i].caption
    ensures forall j :: 0 <= j < |ms| && j != i ==> ms[j].caption != ms[i].caption
  {
  }

  /** Storing a lane under a new key keeps all three. */
  lemma AddLaneKeeps(order: seq<string>, ms: seq<Message>, lanes: map<string, Label>, k: string, lane: Label)
    requires Registered(order, lanes) && Attached(ms, lanes) && CaptionsApart(ms, lanes)
    requires k !in lanes && forall i :: 0 <= i < |ms| ==> ms[i].caption != lane
    ensures Registered(order + [k], lanes[k := lane])
    ensures Attached(ms, lanes[k := lane]) && CaptionsApart(ms, lanes[k := lane])
  {
  }

  /** Appending a message whose ends are registered lanes and whose label
      box is new keeps the last two. */
  lemma AddMessageKeeps(ms: seq<Message>, lanes: map<string, Label>, m: Message)
    requires Attached(ms, lanes) && CaptionsApart(ms, lanes)
    requires m.sourceScope in lanes && m.start == lanes[m.sourceScope]
    requires m.targetScope in lanes && m.end == lanes[m.targetScope]
    requires forall i :: 0 <= i < |ms| ==> ms[i].caption != m.caption
    requires forall k :: k in lanes ==> lanes[k] != m.caption
    ensures Attached(ms + [m], lanes) && CaptionsApart(ms + [m], lanes)
  {
    var ms' := ms + [m];
    assert forall i :: 0 <= i < |ms| ==> ms'[i] == ms[i];
  }

  /** The diagram widget's model. */
  class Diagram {
    /** canvas.height of the diagram canvas */
    const canvasHeight: real
    /** canvas.height of the header canvas */
    const headerHeight: real
    /** measureText(...).width of the 12px font both canvases use */
    const measure: string -> Width

    var startTime: real
    var endTime: real
    var timeDuration: real
    /** the lanes by scope name */
    var swimlanes: map<string, Label>
    /** the order in which the lane keys were first inserted */
    var order: seq<string>
    var lastSwimlaneAdded: Label?
    var msgs: seq<Message>
    var selectedMessageId: Option<string>
    /** the lane under the cursor, or being dragged */
    var activeSwimlane: Label?
    /** the message whose label is under the cursor */
    var hoveredMsg: Message?
    var mouseDown: bool
    /** set by zoomOut so the next page rebuild keeps the window */
    var zoomAction: bool

    ghost predicate Valid()
      reads this`startTime, this`endTime, this`timeDuration, this`swimlanes, this`order, this`msgs
      reads this`mouseDown, this`activeSwimlane
    {
      && canvasHeight > 0.0
      && timeDuration == endTime - startTime
      && Registered(order, swimlanes)
      && Attached(msgs, swimlanes)
      && CaptionsApart(msgs, swimlanes)
      && (mouseDown ==> activeSwimlane != null)
    }

    constructor (startTime: real, endTime: real, canvasHeight: real, headerHeight: real, measure: string -> Width)
      requires canvasHeight > 0.0
      ensures Valid()
      ensures Window(this.startTime, this.endTime) == PaddedWindow(startTime, endTime, canvasHeight)
      ensures this.canvasHeight == canvasHeight && this.headerHeight == headerHeight && this.measure == measure
      ensures swimlanes == map[] && order == [] && msgs == [] && lastSwimlaneAdded == null
      ensures selectedMessageId == None && activeSwimlane == null && hoveredMsg == null
      ensures !mouseDown && !zoomAction
    {
      this.canvasHeight, this.headerHeight, this.measure := canvasHeight, headerHeight, measure;
      swimlanes, order, msgs := map[], [], [];
      lastSwimlaneAdded, activeSwimlane, hoveredMsg := null, null, null;
      selectedMessageId, mouseDown, zoomAction := None, false, false;
      new;
      CanvasSetTime(startTime, endTime);
    }

    /** canvasSetTime: set the window, then widen it by the padding. */
    method CanvasSetTime(s: real, e: real)
      requires canvasHeight > 0.0
      modifies this`startTime, this`endTime, this`timeDuration
      ensures Window(startTime, endTime) == PaddedWindow(s, e, canvasHeight)
      ensures timeDuration == endTime - startTime
    {
      startTime := s;
      endTime := e;
      timeDuration := endTime - startTime;
      var pad := timeDuration / canvasHeight * PAD_PIXELS;
      startTime := startTime - pad;
      endTime := endTime + pad;
      timeDuration := endTime - startTime;
    }

    /** canvasTimeToYOffset on the current window. */
    function CanvasTimeToYOffset(t: real): (y: Option<int>)
      reads this`startTime, this`timeDuration
      ensures y.None? <==> timeDuration == 0.0
      ensures y.Some? && t == startTime ==> y.value == 0
    {
      TimeToYOffset(startTime, timeDuration, canvasHeight, t)
    }

    /** canvasYOffsetToTime on the current window. */
    function CanvasYOffsetToTime(offset: real): (t: int)
      reads this`startTime, this`timeDuration
      requires canvasHeight > 0.0
      ensures 0.0 <= offset < 1.0 ==> t == Trunc(startTime)
    {
      YOffsetToTime(startTime, timeDuration, canvasHeight, offset)
    }

    /** zoomIn: the grid filter bounds for a window 1/1.2 as long starting
        at the same time; the diagram's own window is left as it is. */
    method ZoomIn() returns (filterStart: real, filterEnd: real)
      requires Valid()
      ensures filterStart == startTime && filterEnd == startTime + timeDuration / ZOOM
      ensures timeDuration > 0.0 ==> startTime < filterEnd < endTime
    {
      var zoomDuration := timeDuration / ZOOM;
      filterStart := startTime;
      filterEnd := startTime + zoomDuration;
    }

    /** zoomOut: mark a zoom in progress and set the window to 1.2 times
        its length from the same start (then padded again).  The filter it
        pushes onto the grid is [start, start + 1.2 * duration].  When the
        grid has no filter, pushing onto it throws before the window is
        set: ok is false and only zoomAction has changed. */
    method ZoomOut(gridHasFilter: bool) returns (ok: bool, filterStart: real, filterEnd: real)
      requires Valid()
      modifies this`zoomAction, this`startTime, this`endTime, this`timeDuration
      ensures Valid() && zoomAction && ok == gridHasFilter
      ensures filterStart == old(startTime) && filterEnd == old(startTime) + old(timeDuration) * ZOOM
      ensures ok ==> Window(startTime, endTime) == PaddedWindow(filterStart, filterEnd, canvasHeight)
      ensures !ok ==> startTime == old(startTime) && endTime == old(endTime) && timeDuration == old(timeDuration)
    {
      zoomAction := true;
      var zoomDuration := timeDuration * ZOOM;
      filterStart := startTime;
      filterEnd := startTime + zoomDuration;
      ok := gridHasFilter;
      if ok {
        CanvasSetTime(filterStart, filterEnd);
      }
    }

    /** addSwimlane: a new lane for labelText, centred MIN_NODE_SPACING to
        the right of the last added lane's right edge (of the x origin for
        the first lane), stored under labelText and remembered as the last
        one added.  The key keeps its first insertion position. */
    method AddSwimlane(labelText: string) returns (lane: Label)
      requires Valid()
      modifies this`swimlanes, this`order, this`lastSwimlaneAdded
      ensures fresh(lane) && lane.Valid() && lane.text == labelText
      ensures lane.cx == (if old(lastSwimlaneAdded) == null then XORIGIN else old(lastSwimlaneAdded.x2)) + MIN_NODE_SPACING
      ensures lane.cy == headerHeight / 2.0 && lane.width == measure(labelText) && lane.height == LABEL_HEIGHT
      ensures swimlanes == old(swimlanes)[labelText := lane] && lastSwimlaneAdded == lane
      ensures order == if labelText in old(swimlanes) then old(order) else old(order) + [labelText]
      ensures labelText !in old(swimlanes) ==> Valid()
    {
      var x := if lastSwimlaneAdded == null then XORIGIN else lastSwimlaneAdded.x2;
      x := x + MIN_NODE_SPACING;
      lane := new Label(labelText, Point(x, headerHeight / 2.0), measure(labelText), LABEL_HEIGHT);
      if labelText !in swimlanes {
        AddLaneKeeps(order, msgs, swimlanes, labelText, lane);
        order := order + [labelText];
      }
      swimlanes := swimlanes[labelText := lane];
      lastSwimlaneAdded := lane;
    }

    /** The lane of a message end: the one stored under scope, or a new
        one added for it when there is none. */
    method LaneFor(scope: string) returns (lane: Label)
      requires Valid()
      modifies this`swimlanes, this`order, this`lastSwimlaneAdded
      ensures Valid() && swimlanes == old(swimlanes)[scope := lane]
      ensures order == if scope in old(swimlanes) then old(order) else old(order) + [scope]
      ensures scope in old(swimlanes) ==> lane == old(swimlanes[scope]) && lastSwimlaneAdded == old(lastSwimlaneAdded)
      ensures scope !in old(swimlanes) ==>
        fresh(lane) && lastSwimlaneAdded == lane &&
        NewLane(lane, scope, if old(lastSwimlaneAdded) == null then XORIGIN else old(lastSwimlaneAdded.x2))
    {
      if scope in swimlanes {
        lane := swimlanes[scope];
      } else {
        lane := AddSwimlane(scope);
      }
    }

    /** The second half of addOrUpdateMessage: append a new message with
        the given, registered, lanes as its ends, its label midway between
        the lanes' centres at time + 25, and select it. */
    method AppendMessage(r: TraceRecord, start: Label, end: Label) returns (m: Message)
      requires Valid()
      requires r.sourceScope in swimlanes && swimlanes[r.sourceScope] == start
      requires r.targetScope in swimlanes && swimlanes[r.targetScope] == end
      modifies this`msgs, this`selectedMessageId
      ensures Valid() && msgs == old(msgs) + [m] && selectedMessageId == Some(r.id)
      ensures fresh(m) && fresh(m.caption) && Carries(m, r) && m.start == start && m.end == end
      ensures m.caption.Valid() && m.caption.text == r.text
      ensures m.caption.cx == (start.cx + end.cx) / 2.0 && m.caption.cy == r.timestamp + DEFAULT_DURATION / 2.0
      ensures m.caption.width == measure(r.text) && m.caption.height == LABEL_HEIGHT
    {
      var time := r.timestamp;
      var caption := new Label(r.text, Point((start.cx + end.cx) / 2.0, (time + time + DEFAULT_DURATION) / 2.0),
                               measure(r.text), LABEL_HEIGHT);
      m := new Message(r, start, end, caption);
      AddMessageKeeps(msgs, swimlanes, m);
      selectedMessageId := Some(m.id);
      msgs := msgs + [m];
    }

    /** lane is the one addSwimlane makes for text when the previous lane's
        right edge (or the x origin) is at x. */
    ghost predicate NewLane(lane: Label, text: string, x: real)
      reads lane
    {
      lane.Valid() && lane.text == text && lane.cx == x + MIN_NODE_SPACING &&
      lane.cy == headerHeight / 2.0 && lane.width == measure(text) && lane.height == LABEL_HEIGHT
    }

    /** The first half of addOrUpdateMessage: the lanes of the source and
        then of the target scope, each looked up or added.  A lane added
        for the target after one added for the source sits right of it. */
    method LanesFor(r: TraceRecord) returns (start: Label, end: Label)
      requires Valid()
      modifies this`swimlanes, this`order, this`lastSwimlaneAdded
      ensures Valid()
      ensures swimlanes.Keys == old(swimlanes).Keys + {r.sourceScope, r.targetScope}
      ensures forall k :: k in old(swimlanes) ==> swimlanes[k] == old(swimlanes)[k]
      ensures order == AddScopes(old(order), r.sourceScope, r.targetScope)
      ensures start == swimlanes[r.sourceScope] && end == swimlanes[r.targetScope]
      ensures r.sourceScope !in old(swimlanes) ==> fresh(start)
      ensures r.targetScope !in old(swimlanes) ==> fresh(end)
      ensures lastSwimlaneAdded ==
        if r.targetScope !in old(swimlanes) then end
        else if r.sourceScope !in old(swimlanes) then start
        else old(lastSwimlaneAdded)
      ensures r.sourceScope !in old(swimlanes) ==>
        NewLane(start, r.sourceScope, if old(lastSwimlaneAdded) == null then XORIGIN else old(lastSwimlaneAdded.x2))
      ensures r.targetScope !in old(swimlanes) && r.targetScope != r.sourceScope ==>
        NewLane(end, r.targetScope,
          if r.sourceScope !in old(swimlanes) then start.x2
          else if old(lastSwimlaneAdded) == null then XORIGIN else old(lastSwimlaneAdded.x2))
    {
      ghost var lanes, keys := swimlanes, order;
      ghost var x0 := if lastSwimlaneAdded == null then XORIGIN else lastSwimlaneAdded.x2;
      start := LaneFor(r.sourceScope);
      ghost var x1 := if lastSwimlaneAdded == null then XORIGIN else lastSwimlaneAdded.x2;
      assert r.sourceScope !in lanes ==> x1 == start.x2 && NewLane(start, r.sourceScope, x0);
      assert r.sourceScope in lanes ==> x1 == x0;
      end := LaneFor(r.targetScope);
      StoreTwice(lanes, r.sourceScope, start, r.targetScope, end);
      OrderTwice(keys, lanes, r.sourceScope, start, r.targetScope);
    }

    /** addOrUpdateMessage: look up the source and the target lane, adding
        each one that is missing (a self-message adds one lane), then
        append a new message -- there is no replacement by id -- whose
        label sits midway between the two lanes at time + 25, and select
        it.  The last lane added is the target's when it was missing, else
        the source's when that was. */
    method AddOrUpdateMessage(r: TraceRecord) returns (m: Message)
      requires Valid()
      modifies this`swimlanes, this`order, this`lastSwimlaneAdded, this`msgs, this`selectedMessageId
      ensures Valid()
      ensures swimlanes.Keys == old(swimlanes).Keys + {r.sourceScope, r.targetScope}
      ensures forall k :: k in old(swimlanes) ==> swimlanes[k] == old(swimlanes)[k]
      ensures order == AddScopes(old(order), r.sourceScope, r.targetScope)
      ensures msgs == old(msgs) + [m] && selectedMessageId == Some(r.id)
      ensures fresh(m) && fresh(m.caption) && Carries(m, r)
      ensures m.start == swimlanes[r.sourceScope] && m.end == swimlanes[r.targetScope]
      ensures r.sourceScope !in old(swimlanes) ==> fresh(m.start)
      ensures r.targetScope !in old(swimlanes) ==> fresh(m.end)
      ensures m.caption.Valid() && m.caption.text == r.text
      ensures m.caption.cx == (m.start.cx + m.end.cx) / 2.0 && m.caption.cy == r.timestamp + DEFAULT_DURATION / 2.0
      ensures m.caption.width == measure(r.text) && m.caption.height == LABEL_HEIGHT
      ensures lastSwimlaneAdded ==
        if r.targetScope !in old(swimlanes) then m.end
        else if r.sourceScope !in old(swimlanes) then m.start
        else old(lastSwimlaneAdded)
      ensures r.sourceScope !in old(swimlanes) ==>
        NewLane(m.start, r.sourceScope, if old(lastSwimlaneAdded) == null then XORIGIN else old(lastSwimlaneAdded.x2))
      ensures r.targetScope !in old(swimlanes) && r.targetScope != r.sourceScope ==>
        NewLane(m.end, r.targetScope,
          if r.sourceScope !in old(swimlanes) then m.start.x2
          else if old(lastSwimlaneAdded) == null then XORIGIN else old(lastSwimlaneAdded.x2))
    {
      var start, end := LanesFor(r);
      m := AppendMessage(r, start, end);
    }

    /** The canvas_node_enter handler of the header. */
    method LaneEnter(node: Label)
      modifies this`activeSwimlane
      ensures activeSwimlane == node
    {
      activeSwimlane := node;
    }

    /** The canvas_node_exit handler of the header: clears the active lane
        only when the event names it. */
    method LaneExit(node: Label)
      modifies this`activeSwimlane
      ensures activeSwimlane == if old(activeSwimlane) == node then null else old(activeSwimlane)
    {
      if activeSwimlane == node {
        activeSwimlane := null;
      }
    }

    /** mousedown on the header starts a drag when a lane is active. */
    method HeaderMouseDown()
      requires Valid()
      modifies this`mouseDown
      ensures Valid() && mouseDown == (old(mouseDown) || activeSwimlane != null)
    {
      if activeSwimlane != null {
        mouseDown := true;
      }
    }

    /** mouseup on the header ends a drag. */
    method HeaderMouseUp()
      requires Valid()
      modifies this`mouseDown
      ensures Valid() && !mouseDown
    {
      mouseDown := false;
    }

    /** The header's mousemove handler has two branches, one per method:
        DragLane while the button is down, HoverLane otherwise. */

    /** The drag branch of the header's mousemove: the active lane's centre
        follows clientX less the 118 px margin, unless that would put the
        lane's left edge left of the x origin, when nothing changes. */
    method DragLane(clientX: real)
      requires Valid() && mouseDown
      modifies activeSwimlane
      ensures Valid() && activeSwimlane == old(activeSwimlane)
      ensures clientX < DRAG_MARGIN + old(activeSwimlane.width) / 2.0 ==> unchanged(activeSwimlane)
      ensures clientX >= DRAG_MARGIN + old(activeSwimlane.width) / 2.0 ==>
        activeSwimlane.cx == clientX - DRAG_MARGIN && activeSwimlane.cy == old(activeSwimlane.cy) &&
        activeSwimlane.width == old(activeSwimlane.width) && activeSwimlane.height == old(activeSwimlane.height) &&
        activeSwimlane.Valid()
    {
      var lane := activeSwimlane;
      if clientX < DRAG_MARGIN + lane.width / 2.0 {
        return;
      }
      lane.cx := clientX - DRAG_MARGIN;
      lane.CalcBB();
    }

    /** The hover branch of the header's mousemove, at canvas point
        (mouseX, mouseY): the first lane, in registry order, whose box
        strictly contains the point becomes active, and none when no box
        does.  The exit event raised when moving from one lane straight to
        another names the new lane, so its handler leaves the old one
        active and the enter that follows replaces it. */
    method HoverLane(mouseX: real, mouseY: real)
      requires Valid() && !mouseDown
      modifies this`activeSwimlane
      ensures Valid()
      ensures var lanes := old(LanesInOrder(order, swimlanes)); var hit := old(FirstHit(lanes, mouseX, mouseY));
        activeSwimlane == if hit.Some? then lanes[hit.value] else null
    {
      var lanes := LanesInOrder(order, swimlanes);
      ghost var hit := FirstHit(lanes, mouseX, mouseY);
      var found, i := FindHit(lanes, mouseX, mouseY);
      assert found <==> hit.Some?;
      assert found ==> hit == Some(i);
      if found {
        var node := lanes[i];
        if activeSwimlane != node {
          if activeSwimlane != null {
            LaneExit(node);
          }
          LaneEnter(node);
        }
      } else if activeSwimlane != null {
        LaneExit(activeSwimlane);
      }
    }

    /** The canvas_node_enter handler of the message canvas. */
    method LabelEnter(msg: Message)
      modifies this`hoveredMsg
      ensures hoveredMsg == msg
    {
      hoveredMsg := msg;
    }

    /** The canvas_node_exit handler of the message canvas. */
    method LabelExit(msg: Message)
      modifies this`hoveredMsg
      ensures hoveredMsg == if old(hoveredMsg) == msg then null else old(hoveredMsg)
    {
      if hoveredMsg == msg {
        hoveredMsg := null;
      }
    }

    /** mousemove on the message canvas: the first message, in message
        order, whose label box strictly contains the mouse is hovered, and
        none when no label does. */
    method CanvasMouseMove(clientX: real, clientY: real, rectLeft: real, rectTop: real)
      requires Valid()
      modifies this`hoveredMsg
      ensures var hit := old(FirstHit(LabelsOf(msgs), clientX - rectLeft, clientY - rectTop));
        hoveredMsg == if hit.Some? then msgs[hit.value] else null
    {
      var captions := LabelsOf(msgs);
      ghost var hit := FirstHit(captions, clientX - rectLeft, clientY - rectTop);
      var found, i := FindHit(captions, clientX - rectLeft, clientY - rectTop);
      assert found <==> hit.Some?;
      assert found ==> hit == Some(i);
      if found {
        var msg := msgs[i];
        if hoveredMsg != msg {
          if hoveredMsg != null {
            LabelExit(msg);
          }
          LabelEnter(msg);
        }
      } else if hoveredMsg != null {
        LabelExit(hoveredMsg);
      }
    }

    /** Message m's label is centred on the midpoint of its arrow: midway
        between the two lanes' centres and, when the window has a length,
        midway between the pixel rows of the message's start and end times.
        In a zero-length window both rows are NaN or an infinity, which the
        model does not represent: the label keeps its row there. */
    ghost predicate Placed(m: Message)
      reads this`startTime, this`timeDuration, m.caption, m.start, m.end
    {
      var y1 := TimeToYOffset(startTime, timeDuration, canvasHeight, m.time);
      var y2 := TimeToYOffset(startTime, timeDuration, canvasHeight, m.endTs);
      && m.caption.Valid()
      && m.caption.cx == (m.start.cx + m.end.cx) / 2.0
      && (y1.Some? && y2.Some? ==> m.caption.cy == (y1.value + y2.value) as real / 2.0)
    }

    /** The part of drawing one message that changes the model: the arrow
        runs between the two lanes at the rows of the start and end times,
        and the label is re-centred on its midpoint.  A zero-length window
        gives no rows; the label then moves only horizontally. */
    method PlaceCaption(m: Message)
      requires m.caption != m.start && m.caption != m.end
      modifies m.caption
      ensures Placed(m) && m.caption.width == old(m.caption.width) && m.caption.height == old(m.caption.height)
      ensures timeDuration == 0.0 ==> m.caption.cy == old(m.caption.cy)
    {
      var y1 := CanvasTimeToYOffset(m.time);
      var y2 := CanvasTimeToYOffset(m.endTs);
      var row1 := if y1.Some? then y1.value as real else m.caption.cy;
      var row2 := if y2.Some? then y2.value as real else m.caption.cy;
      var arrow := Arrow(m.start.cx, m.end.cx, row1, row2);
      var startPoint, endPoint := arrow.0, arrow.1;
      m.caption.SetCenter(Point((startPoint.x + endPoint.x) / 2.0, (startPoint.y + endPoint.y) / 2.0));
    }

    /** What a full redraw changes in the model: every message's label is
        placed on its arrow; no label changes size and no lane moves. */
    method Draw()
      requires Valid()
      modifies set i | 0 <= i < |msgs| :: msgs[i].caption
      ensures forall i :: 0 <= i < |msgs| ==> Placed(msgs[i])
      ensures forall i :: 0 <= i < |msgs| ==>
        msgs[i].caption.width == old(msgs[i].caption.width) && msgs[i].caption.height == old(msgs[i].caption.height)
      ensures timeDuration == 0.0 ==> forall i :: 0 <= i < |msgs| ==> msgs[i].caption.cy == old(msgs[i].caption.cy)
      ensures forall k :: k in swimlanes ==> unchanged(swimlanes[k])
    {
      for i := 0 to |msgs|
        invariant forall j :: 0 <= j < i ==> Placed(msgs[j])
        invariant forall j :: 0 <= j < |msgs| ==>
          msgs[j].caption.width == old(msgs[j].caption.width) && msgs[j].caption.height == old(msgs[j].caption.height)
        invariant timeDuration == 0.0 ==> forall j :: 0 <= j < |msgs| ==> msgs[j].caption.cy == old(msgs[j].caption.cy)
        invariant forall k :: k in swimlanes ==> unchanged(swimlanes[k])
      {
        var msg := msgs[i];
        ApartAt(msgs, swimlanes, i);
        PlaceCaption(msg);
      }
    }
  }
}
