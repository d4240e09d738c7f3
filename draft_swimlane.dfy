/** The older draft of the diagram (swimlane.js): nodes with a text box at
    the top of their lane, messages between two node endpoints, and a
    vertical scale that the zoom buttons multiply. */
module DraftSwimlane {

  /** the x offset that addNode adds to every node's position */
  const XORIGIN: real := 118.0
  /** the pixel row of the axis under the node boxes */
  const YORIGIN: real := 40.0
  /** the fixed text height of a node label */
  const TEXT_HEIGHT: real := 12.0
  /** the space around a node's text inside its box */
  const PADDING: real := 5.0
  /** the factors of one zoom-in and one zoom-out step */
  const ZOOM_IN: real := 1.1
  const ZOOM_OUT: real := 0.9

  /** a measured text width */
  type Width = w: real | 0.0 <= w

  datatype Point = Point(x: real, y: real)

  /** The text name at the top of a lane (the source calls it the label),
      with its bounding box. The box is a separate object in the source;
      its four numbers are fields of the node here, as nothing else refers
      to the box. */
  class MeshNode {
    const name: string
    var x: real
    const textWidth: real
    var width: real
    var height: real
    var y1: real
    var x1: real

    /** The box is the text plus the padding on each side, and sits at a
        fixed row until stacking is added. */
    ghost predicate Shaped()
      reads this`width, this`height, this`y1
    {
      width == textWidth + 2.0 * PADDING && height == TEXT_HEIGHT + 2.0 * PADDING
      && y1 == YORIGIN - 10.0 * 2.0 - 2.0 * PADDING
    }

    /** Shaped, and the left edge is the one calcBB derives from x. */
    ghost predicate Valid()
      reads this`x, this`width, this`height, this`y1, this`x1
    {
      Shaped() && x1 == x - textWidth / 2.0 - 2.0
    }

    constructor(text: string, x: real, textWidth: Width)
      ensures this.name == text && this.x == x && this.textWidth == textWidth
      ensures width == textWidth + 10.0 && height == 22.0 && y1 == 10.0
      ensures x1 == x - textWidth / 2.0 - 2.0
      ensures Valid()
    {
      this.name := text;
      this.x := x;
      this.textWidth := textWidth;
      width := textWidth + 2.0 * PADDING;
      height := TEXT_HEIGHT + 2.0 * PADDING;
      y1 := YORIGIN - 10.0 * 2.0 - 2.0 * PADDING;
      new;
      CalcBB();
    }

    /** Recomputes the left edge from x; nothing else moves. */
    method CalcBB()
      modifies this`x1
      ensures x1 == x - textWidth / 2.0 - 2.0
      ensures old(Shaped()) ==> Valid()
    {
      x1 := x - textWidth / 2.0 - 2.0;
    }

    /** The mouse test of both canvas handlers: strictly inside the box.
        For a box of the standard shape that is the rows strictly between
        10 and 32, and the columns up to the text width + 10 right of x1. */
    predicate Hit(mx: real, my: real): (b: bool)
      reads this`width, this`height, this`y1, this`x1
      ensures Shaped() ==> (b <==> x1 < mx < x1 + textWidth + 10.0 && 10.0 < my < 32.0)
    {
      x1 < mx < x1 + width && y1 < my < y1 + height
    }
  }

  /** Which points hit a node whose box is up to date: the rows strictly
      between 10 and 32, and the columns from 2 pixels left of where the
      text would start to 8 pixels right of where it would end. */
  lemma HitBand(n: MeshNode, mx: real, my: real)
    requires n.Valid()
    ensures n.Hit(mx, my) <==>
      (n.x - n.textWidth / 2.0 - 2.0 < mx < n.x + n.textWidth / 2.0 + 8.0 && 10.0 < my < 32.0)
  {
  }

  /** The box is not centred on the node's x: its middle is 3 pixels to
      the right, though x itself is always inside it. */
  lemma BoxOffCentre(n: MeshNode)
    requires n.Valid() && n.textWidth >= 0.0
    ensures n.x1 + n.width / 2.0 == n.x + 3.0
    ensures n.Hit(n.x, 21.0) && n.Hit(n.x + 3.0, 21.0)
  {
  }

  /** The start or end of a message: a node and a time. The source copies
      it into a fresh object twice, so it behaves as a value. */
  datatype Endpoint = Endpoint(node: MeshNode, time: real)

  datatype DraftMessage = DraftMessage(id: string, start: Endpoint, end: Endpoint)

  /** The pixel row drawMessage gives a time: below the axis by the time
      divided by the vertical scale. */
  function RowOf(time: real, yscale: real): (y: real)
    requires yscale > 0.0
    ensures time == 0.0 ==> y == YORIGIN
    ensures time > 0.0 <==> y > YORIGIN
    ensures (y - YORIGIN) * yscale == time
  {
    YORIGIN + time / yscale
  }

  /** Later times are drawn lower. */
  lemma RowMonotone(t1: real, t2: real, yscale: real)
    requires yscale > 0.0 && t1 <= t2
    ensures RowOf(t1, yscale) <= RowOf(t2, yscale)
  {
    assert (RowOf(t2, yscale) - RowOf(t1, yscale)) * yscale == t2 - t1;
  }

  /** Multiplying the scale by k divides every row's distance from the
      axis by k. */
  lemma RowScaled(t: real, yscale: real, k: real)
    requires yscale > 0.0 && k > 0.0
    ensures RowOf(t, yscale * k) - YORIGIN == (RowOf(t, yscale) - YORIGIN) / k
  {
    var a, b := RowOf(t, yscale * k) - YORIGIN, RowOf(t, yscale) - YORIGIN;
    assert a * (yscale * k) == b * yscale;
  }

  /** One zoom-in followed by one zoom-out does not restore the rows: the
      scale ends at 0.99 of where it began, so rows move away from the
      axis. */
  lemma ZoomNotUndone(t: real, yscale: real)
    requires yscale > 0.0 && t > 0.0
    ensures yscale * ZOOM_IN * ZOOM_OUT == yscale * 0.99
    ensures RowOf(t, yscale * ZOOM_IN * ZOOM_OUT) > RowOf(t, yscale)
  {
    RowScaled(t, yscale, 0.99);
  }

  class Swimlane {
    const startTime: real
    const endTime: real
    const timeDuration: real
    /** the canvas context's measureText */
    const measure: string -> Width
    var nodes: seq<MeshNode>
    var msgs: seq<DraftMessage>
    var yscale: real

    /** The scale stays positive, and every node's box is up to date. */
    ghost predicate Valid()
      reads this, nodes
    {
      yscale > 0.0 && forall i :: 0 <= i < |nodes| ==> nodes[i].Valid()
    }

    constructor(startTime: real, endTime: real, measure: string -> Width)
      ensures this.startTime == startTime && this.endTime == endTime
      ensures timeDuration == endTime - startTime && this.measure == measure
      ensures nodes == [] && msgs == [] && yscale == 1.0
      ensures Valid()
    {
      this.startTime := startTime;
      this.endTime := endTime;
      timeDuration := endTime - startTime;
      this.measure := measure;
      nodes := [];
      msgs := [];
      yscale := 1.0;
    }

    /** Adds a node at x shifted by the x origin, boxed around the measured
        width of its label, after the nodes already there. */
    method AddNode(text: string, x: real) returns (mn: MeshNode)
      requires Valid()
      modifies this`nodes
      ensures Valid()
      ensures fresh(mn) && nodes == old(nodes) + [mn]
      ensures mn.name == text && mn.x == x + XORIGIN && mn.textWidth == measure(text)
    {
      var x' := x + XORIGIN;
      mn := new MeshNode(text, x', measure(text));
      nodes := nodes + [mn];
    }

    /** Appends one message between the two endpoints. */
    method AddMessage(id: string, start: Endpoint, end: Endpoint)
      modifies this`msgs
      ensures msgs == old(msgs) + [DraftMessage(id, start, end)]
    {
      msgs := msgs + [DraftMessage(id, start, end)];
    }

    method ZoomIn()
      requires Valid()
      modifies this`yscale
      ensures Valid() && yscale == old(yscale) * ZOOM_IN
    {
      yscale := yscale * ZOOM_IN;
    }

    method ZoomOut()
      requires Valid()
      modifies this`yscale
      ensures Valid() && yscale == old(yscale) * ZOOM_OUT
    {
      yscale := yscale * ZOOM_OUT;
    }

    /** Where drawMessage puts an endpoint: on its node's line, at the row
        of its time. */
    function EndpointPoint(e: Endpoint): (p: Point)
      requires Valid()
      reads this, nodes, e.node
      ensures p.x == e.node.x && p.y == RowOf(e.time, yscale)
    {
      Point(e.node.x, YORIGIN + e.time / yscale)
    }
  }
}
