/** The page script (main.js): rebuilding the diagram from the grid's
    current page, building the table of flit decoders once, and the grid's
    selection handler. */
module Page {
  import opened Numbers
  import opened SequenceDiagram
  import opened FlitDecoder

  /** Number.MAX_SAFE_INTEGER and Number.MIN_SAFE_INTEGER, the starting
      values of the two accumulators of dataBound. */
  const MAX_SAFE: real := 9007199254740991.0
  const MIN_SAFE: real := -9007199254740991.0

  // ---------------------------------------------------------------------
  // What one pass over a page computes

  /** The smallest start time of the page, or MAX_SAFE when there is none
      below it (so for an empty page). */
  function MinTime(items: seq<TraceRecord>): (t: real)
    ensures t <= MAX_SAFE
    ensures forall i :: 0 <= i < |items| ==> t <= items[i].timestamp
    ensures t == MAX_SAFE || exists i :: 0 <= i < |items| && t == items[i].timestamp
  {
    if items == [] then MAX_SAFE
    else
      var t := MinTime(items[..|items| - 1]);
      if items[|items| - 1].timestamp < t then items[|items| - 1].timestamp else t
  }

  /** The largest end time of the page, or MIN_SAFE when there is none
      above it (so for an empty page). */
  function MaxEnd(items: seq<TraceRecord>): (t: real)
    ensures t >= MIN_SAFE
    ensures forall i :: 0 <= i < |items| ==> items[i].endTs <= t
    ensures t == MIN_SAFE || exists i :: 0 <= i < |items| && t == items[i].endTs
  {
    if items == [] then MIN_SAFE
    else
      var t := MaxEnd(items[..|items| - 1]);
      if items[|items| - 1].endTs > t then items[|items| - 1].endTs else t
  }

  /** On a page whose times lie in the safe range, the two accumulators end
      at the page's least start time and greatest end time. */
  lemma {:induction false} PageExtremes(items: seq<TraceRecord>)
    requires items != []
    requires forall i :: 0 <= i < |items| ==> items[i].timestamp <= MAX_SAFE && MIN_SAFE <= items[i].endTs
    ensures exists i :: 0 <= i < |items| && MinTime(items) == items[i].timestamp
    ensures exists i :: 0 <= i < |items| && MaxEnd(items) == items[i].endTs
  {
    var t, e := MinTime(items), MaxEnd(items);
    assert t <= items[0].timestamp && items[0].endTs <= e;
    if t == MAX_SAFE {
      assert t == items[0].timestamp;
    }
    if e == MIN_SAFE {
      assert e == items[0].endTs;
    }
  }

  /** A page whose every message starts and ends at the same instant t
      gets a window of length zero: the span is empty, so canvasSetTime
      adds no padding. */
  lemma InstantPage(items: seq<TraceRecord>, t: real, h: real)
    requires h > 0.0 && items != [] && MIN_SAFE < t <= MAX_SAFE
    requires forall i :: 0 <= i < |items| ==> items[i].timestamp == t && items[i].endTs == t
    ensures MinTime(items) == MaxEnd(items) == t
    ensures PaddedWindow(MinTime(items), MaxEnd(items), h) == Window(t, t)
  {
    assert MinTime(items) <= items[0].timestamp && items[0].endTs <= MaxEnd(items);
  }

  /** Record r names scope k at one of its ends. */
  predicate Names(r: TraceRecord, k: string)
  {
    r.sourceScope == k || r.targetScope == k
  }

  /** The lane keys in the order the page's messages first name them,
      source scope before target scope. */
  function ScopeOrder(items: seq<TraceRecord>): seq<string>
  {
    if items == [] then []
    else
      var r := items[|items| - 1];
      AddScopes(ScopeOrder(items[..|items| - 1]), r.sourceScope, r.targetScope)
  }

  /** Each key is in the scope order once. */
  lemma {:induction false} ScopeOrderDistinct(items: seq<TraceRecord>)
    ensures forall i, j :: 0 <= i < j < |ScopeOrder(items)| ==> ScopeOrder(items)[i] != ScopeOrder(items)[j]
  {
    if items != [] {
      var r := items[|items| - 1];
      ScopeOrderDistinct(items[..|items| - 1]);
      AddScopesDistinct(ScopeOrder(items[..|items| - 1]), r.sourceScope, r.targetScope);
    }
  }

  /** AddScopes keeps the keys distinct and adds exactly the two scopes. */
  lemma AddScopesDistinct(order: seq<string>, source: string, target: string)
    requires forall i, j :: 0 <= i < j < |order| ==> order[i] != order[j]
    ensures var o := AddScopes(order, source, target);
      && (forall i, j :: 0 <= i < j < |o| ==> o[i] != o[j])
      && (forall k :: k in o <==> k in order || k == source || k == target)
  {
  }

  /** The keys are exactly the scopes the page names. */
  lemma {:induction false} ScopeOrderNames(items: seq<TraceRecord>)
    ensures forall k :: k in ScopeOrder(items) <==> exists i :: 0 <= i < |items| && Names(items[i], k)
  {
    if items != [] {
      var front, r := items[..|items| - 1], items[|items| - 1];
      assert items == front + [r];
      ScopeOrderNames(front);
      ScopeOrderDistinct(front);
      AddScopesDistinct(ScopeOrder(front), r.sourceScope, r.targetScope);
      forall k ensures k in ScopeOrder(items) <==> exists i :: 0 <= i < |items| && Names(items[i], k) {
        NamedStep(items, front, r, k);
      }
    }
  }

  /** A registry whose order is the page's scope order holds exactly the
      scopes the page names. */
  lemma KeysNamed(order: seq<string>, lanes: map<string, Label>, items: seq<TraceRecord>)
    requires Registered(order, lanes) && order == ScopeOrder(items)
    ensures forall k :: k in lanes <==> exists i :: 0 <= i < |items| && Names(items[i], k)
  {
    ScopeOrderNames(items);
  }

  /** Scope k is named on the page iff it is named before the last item or
      by the last item. */
  lemma NamedStep(items: seq<TraceRecord>, front: seq<TraceRecord>, r: TraceRecord, k: string)
    requires items == front + [r]
    ensures (exists i :: 0 <= i < |items| && Names(items[i], k)) <==>
      (exists i :: 0 <= i < |front| && Names(front[i], k)) || Names(r, k)
  {
    if exists i :: 0 <= i < |items| && Names(items[i], k) {
      var i :| 0 <= i < |items| && Names(items[i], k);
      if i < |front| {
        assert Names(front[i], k);
      }
    }
    if exists i :: 0 <= i < |front| && Names(front[i], k) {
      var i :| 0 <= i < |front| && Names(front[i], k);
      assert items[i] == front[i];
    }
    if Names(r, k) {
      assert items[|front|] == r;
    }
  }

  /** Message i of ms holds record i of rs, for every i. */
  predicate Carried(ms: seq<Message>, rs: seq<TraceRecord>)
  {
    |ms| == |rs| && forall i :: 0 <= i < |ms| ==> Carries(ms[i], rs[i])
  }

  lemma CarriedStep(ms: seq<Message>, rs: seq<TraceRecord>, m: Message, r: TraceRecord)
    requires Carried(ms, rs) && Carries(m, r)
    ensures Carried(ms + [m], rs + [r])
  {
    assert forall i :: 0 <= i < |ms| ==> (ms + [m])[i] == ms[i] && (rs + [r])[i] == rs[i];
  }

  /** One more item of the page: the three folds take one step each. */
  lemma PageStep(items: seq<TraceRecord>, i: nat)
    requires i < |items|
    ensures items[..i + 1] == items[..i] + [items[i]]
    ensures ScopeOrder(items[..i + 1]) == AddScopes(ScopeOrder(items[..i]), items[i].sourceScope, items[i].targetScope)
    ensures MinTime(items[..i + 1]) == if items[i].timestamp < MinTime(items[..i]) then items[i].timestamp else MinTime(items[..i])
    ensures MaxEnd(items[..i + 1]) == if items[i].endTs > MaxEnd(items[..i]) then items[i].endTs else MaxEnd(items[..i])
  {
    assert items[..i + 1] == items[..i] + [items[i]];
    FoldsSnoc(items[..i], items[i]);
  }

  lemma FoldsSnoc(s: seq<TraceRecord>, r: TraceRecord)
    ensures ScopeOrder(s + [r]) == AddScopes(ScopeOrder(s), r.sourceScope, r.targetScope)
    ensures MinTime(s + [r]) == if r.timestamp < MinTime(s) then r.timestamp else MinTime(s)
    ensures MaxEnd(s + [r]) == if r.endTs > MaxEnd(s) then r.endTs else MaxEnd(s)
  {
    assert (s + [r])[..|s|] == s;
  }

  /** Looking up or adding the lanes of source and then target keeps the
      placement: a lane added for a missing scope is placed from the last
      key's lane at that moment. */
  lemma PlacedStep(xsd: Diagram, keys: seq<string>, lanes: map<string, Label>, s: string, t: string,
                   start: Label, end: Label, after: map<string, Label>)
    requires LanesPlaced(xsd, keys, lanes) && forall k :: k in lanes <==> k in keys
    requires forall k :: k in lanes ==> k in after && after[k] == lanes[k]
    requires s in after && after[s] == start && t in after && after[t] == end
    requires s !in lanes ==> xsd.NewLane(start, s, PlaceFrom(keys, lanes))
    requires t !in lanes && t != s ==>
      xsd.NewLane(end, t, if s !in lanes then start.x2 else PlaceFrom(keys, lanes))
    ensures LanesPlaced(xsd, AddScopes(keys, s, t), after)
  {
    var keys1, lanes1 := keys, lanes;
    if s !in lanes {
      PlacedAppend(xsd, keys, lanes, s, start);
      keys1, lanes1 := keys + [s], lanes[s := start];
      assert PlaceFrom(keys1, lanes1) == start.x2;
    }
    assert forall k :: k in lanes1 <==> k in keys1;
    var keys2, lanes2 := keys1, lanes1;
    if t !in lanes1 {
      PlacedAppend(xsd, keys1, lanes1, t, end);
      keys2, lanes2 := keys1 + [t], lanes1[t := end];
    }
    assert keys2 == AddScopes(keys, s, t);
    PlacedAgree(xsd, keys2, lanes2, after);
  }

  /** One addOrUpdateMessage keeps the diagram laid out. keys, lanes and
      last are the registry before the call. */
  lemma LaidOutStep(xsd: Diagram, keys: seq<string>, lanes: map<string, Label>, last: Label?,
                    r: TraceRecord, m: Message)
    requires Registered(keys, lanes) && LanesPlaced(xsd, keys, lanes)
    requires last == (if keys == [] then null else lanes[keys[|keys| - 1]])
    requires xsd.swimlanes.Keys == lanes.Keys + {r.sourceScope, r.targetScope}
    requires forall k :: k in lanes ==> xsd.swimlanes[k] == lanes[k]
    requires xsd.order == AddScopes(keys, r.sourceScope, r.targetScope)
    requires m.start == xsd.swimlanes[r.sourceScope] && m.end == xsd.swimlanes[r.targetScope]
    requires xsd.lastSwimlaneAdded ==
      if r.targetScope !in lanes then m.end else if r.sourceScope !in lanes then m.start else last
    requires r.sourceScope !in lanes ==> xsd.NewLane(m.start, r.sourceScope, PlaceFrom(keys, lanes))
    requires r.targetScope !in lanes && r.targetScope != r.sourceScope ==>
      xsd.NewLane(m.end, r.targetScope, if r.sourceScope !in lanes then m.start.x2 else PlaceFrom(keys, lanes))
    ensures LaidOut(xsd)
  {
    var s, t, o := r.sourceScope, r.targetScope, xsd.order;
    PlacedStep(xsd, keys, lanes, s, t, m.start, m.end, xsd.swimlanes);
    if t !in lanes {
      assert o[|o| - 1] == t;
    } else if s !in lanes {
      assert o == keys + [s];
    } else {
      assert o == keys;
    }
  }

  // ---------------------------------------------------------------------
  // dataBound

  /** The start of dataBound: no messages, no lanes, no last lane. */
  method Clear(xsd: Diagram)
    requires xsd.Valid()
    modifies xsd`msgs, xsd`lastSwimlaneAdded, xsd`swimlanes, xsd`order
    ensures xsd.Valid()
    ensures xsd.msgs == [] && xsd.lastSwimlaneAdded == null && xsd.swimlanes == map[] && xsd.order == []
  {
    xsd.msgs := [];
    xsd.lastSwimlaneAdded := null;
    xsd.swimlanes := map[];
    xsd.order := [];
  }

  /** The diagram shows the page: one message per item, holding the item,
      in page order; the lanes are exactly the scopes the page names, in
      the order they are first named. */
  ghost predicate Shows(ms: seq<Message>, order: seq<string>, lanes: map<string, Label>, items: seq<TraceRecord>)
  {
    && Carried(ms, items)
    && order == ScopeOrder(items)
    && forall k :: k in lanes <==> exists i :: 0 <= i < |items| && Names(items[i], k)
  }

  /** The right edge a new lane is placed from: the last key's lane's, or
      the x origin. */
  ghost function PlaceFrom(keys: seq<string>, lanes: map<string, Label>): real
    reads lanes.Values
    requires keys != [] ==> keys[|keys| - 1] in lanes
  {
    if keys == [] then XORIGIN else lanes[keys[|keys| - 1]].x2
  }

  /** The right edge lane j of keys is placed from when the lanes are added
      in key order from an empty registry: the x origin for the first, and
      then each lane's centre is MIN_NODE_SPACING right of the previous
      edge, its edge half its measured width right of its centre. */
  ghost function LaneEdge(xsd: Diagram, keys: seq<string>, j: nat): real
    requires j <= |keys|
  {
    if j == 0 then XORIGIN
    else LaneEdge(xsd, keys, j - 1) + MIN_NODE_SPACING + xsd.measure(keys[j - 1]) / 2.0
  }

  /** The lanes of keys sit where adding them one by one from an empty
      registry puts them: lane j is the one addSwimlane makes from
      LaneEdge j. */
  ghost predicate LanesPlaced(xsd: Diagram, keys: seq<string>, lanes: map<string, Label>)
    reads lanes.Values
  {
    && (forall k :: k in keys ==> k in lanes)
    && forall j {:trigger LaneEdge(xsd, keys, j)} :: 0 <= j < |keys| ==> xsd.NewLane(lanes[keys[j]], keys[j], LaneEdge(xsd, keys, j))
  }

  /** The diagram as a rebuild from empty leaves it: the lanes placed in
      key order, and the last lane added the last key's. */
  ghost predicate LaidOut(xsd: Diagram)
    reads xsd`order, xsd`swimlanes, xsd`lastSwimlaneAdded, xsd.swimlanes.Values
  {
    && LanesPlaced(xsd, xsd.order, xsd.swimlanes)
    && (xsd.order == [] ==> xsd.lastSwimlaneAdded == null)
    && (xsd.order != [] ==>
         xsd.order[|xsd.order| - 1] in xsd.swimlanes &&
         xsd.lastSwimlaneAdded == xsd.swimlanes[xsd.order[|xsd.order| - 1]])
  }

  /** A new lane's right edge is LaneEdge of the next position. */
  lemma NextEdge(xsd: Diagram, keys: seq<string>, lanes: map<string, Label>)
    requires LanesPlaced(xsd, keys, lanes) && keys != []
    ensures keys[|keys| - 1] in lanes && PlaceFrom(keys, lanes) == LaneEdge(xsd, keys, |keys|)
  {
    var n := |keys| - 1;
    var lane := lanes[keys[n]];
    assert xsd.NewLane(lane, keys[n], LaneEdge(xsd, keys, n));
    assert lane.x2 == lane.cx + lane.width / 2.0;
  }

  /** In placed lanes, each lane after the first is placed from the right
      edge of the lane before it, and the first from the x origin. */
  lemma PlacedAfter(xsd: Diagram, keys: seq<string>, lanes: map<string, Label>, j: nat)
    requires LanesPlaced(xsd, keys, lanes) && j < |keys|
    ensures keys[j] in lanes && (j > 0 ==> keys[j - 1] in lanes)
    ensures xsd.NewLane(lanes[keys[j]], keys[j], if j == 0 then XORIGIN else lanes[keys[j - 1]].x2)
  {
    assert xsd.NewLane(lanes[keys[j]], keys[j], LaneEdge(xsd, keys, j));
    if j > 0 {
      var lane := lanes[keys[j - 1]];
      assert xsd.NewLane(lane, keys[j - 1], LaneEdge(xsd, keys, j - 1));
      assert lane.x2 == lane.cx + lane.width / 2.0;
    }
  }

  /** LaneEdge looks only at the keys before the position. */
  lemma {:induction false} EdgePrefix(xsd: Diagram, front: seq<string>, keys: seq<string>, j: nat)
    requires j <= |front| <= |keys| && front == keys[..|front|]
    ensures forall i :: 0 <= i <= j ==> LaneEdge(xsd, front, i) == LaneEdge(xsd, keys, i)
  {
    if j > 0 {
      EdgePrefix(xsd, front, keys, j - 1);
      assert front[j - 1] == keys[j - 1];
    }
  }

  /** Placement depends only on the lanes stored under the keys. */
  lemma PlacedAgree(xsd: Diagram, keys: seq<string>, lanes: map<string, Label>, lanes': map<string, Label>)
    requires LanesPlaced(xsd, keys, lanes)
    requires forall k :: k in keys ==> k in lanes && k in lanes' && lanes'[k] == lanes[k]
    ensures LanesPlaced(xsd, keys, lanes')
  {
    forall j | 0 <= j < |keys|
      ensures keys[j] in lanes' && xsd.NewLane(lanes'[keys[j]], keys[j], LaneEdge(xsd, keys, j))
    {
      assert keys[j] in keys && xsd.NewLane(lanes[keys[j]], keys[j], LaneEdge(xsd, keys, j));
    }
  }

  /** A lane for a new key, placed from the last key's lane, keeps the
      placement. */
  lemma PlacedAppend(xsd: Diagram, keys: seq<string>, lanes: map<string, Label>, k: string, lane: Label)
    requires LanesPlaced(xsd, keys, lanes) && k !in keys
    requires keys != [] ==> keys[|keys| - 1] in lanes
    requires xsd.NewLane(lane, k, PlaceFrom(keys, lanes))
    ensures LanesPlaced(xsd, keys + [k], lanes[k := lane])
  {
    var o, l := keys + [k], lanes[k := lane];
    EdgePrefix(xsd, keys, o, |keys|);
    if keys != [] {
      NextEdge(xsd, keys, lanes);
    }
    forall j | 0 <= j < |o|
      ensures o[j] in l && xsd.NewLane(l[o[j]], o[j], LaneEdge(xsd, o, j))
    {
      if j < |keys| {
        assert o[j] == keys[j] && keys[j] != k;
        assert xsd.NewLane(lanes[keys[j]], keys[j], LaneEdge(xsd, keys, j));
      } else {
        assert o[j] == k;
      }
    }
  }

  /** One step of the forEach: addOrUpdateMessage of the item, which on a
      laid-out diagram places each lane it adds after the last one. */
  method AddItem(xsd: Diagram, r: TraceRecord) returns (msg: Message)
    requires xsd.Valid() && LaidOut(xsd)
    modifies xsd`swimlanes, xsd`order, xsd`lastSwimlaneAdded, xsd`msgs, xsd`selectedMessageId
    ensures xsd.Valid() && LaidOut(xsd)
    ensures xsd.msgs == old(xsd.msgs) + [msg] && Carries(msg, r) && xsd.selectedMessageId == Some(r.id)
    ensures xsd.order == AddScopes(old(xsd.order), r.sourceScope, r.targetScope)
  {
    ghost var keys, lanes, last := xsd.order, xsd.swimlanes, xsd.lastSwimlaneAdded;
    assert PlaceFrom(keys, lanes) == if last == null then XORIGIN else last.x2;
    msg := xsd.AddOrUpdateMessage(r);
    LaidOutStep(xsd, keys, lanes, last, r, msg);
  }

  /** The forEach of dataBound, on the emptied diagram: each item of the
      page is added in turn, so the last item's message ends up selected;
      the two accumulators follow the least start and greatest end. */
  method AddPage(xsd: Diagram, items: seq<TraceRecord>) returns (minTime: real, maxTime: real)
    requires xsd.Valid() && xsd.msgs == [] && xsd.order == [] && xsd.lastSwimlaneAdded == null
    modifies xsd`swimlanes, xsd`order, xsd`lastSwimlaneAdded, xsd`msgs, xsd`selectedMessageId
    ensures xsd.Valid() && Shows(xsd.msgs, xsd.order, xsd.swimlanes, items) && LaidOut(xsd)
    ensures items != [] ==> xsd.selectedMessageId == Some(items[|items| - 1].id)
    ensures items == [] ==> xsd.selectedMessageId == old(xsd.selectedMessageId)
    ensures minTime == MinTime(items) && maxTime == MaxEnd(items)
  {
    minTime := MAX_SAFE;
    maxTime := MIN_SAFE;
    for i := 0 to |items|
      invariant xsd.Valid() && LaidOut(xsd)
      invariant Carried(xsd.msgs, items[..i])
      invariant xsd.order == ScopeOrder(items[..i])
      invariant i > 0 ==> xsd.selectedMessageId == Some(items[i - 1].id)
      invariant i == 0 ==> xsd.selectedMessageId == old(xsd.selectedMessageId)
      invariant minTime == MinTime(items[..i]) && maxTime == MaxEnd(items[..i])
    {
      PageStep(items, i);
      ghost var ms := xsd.msgs;
      var msg := AddItem(xsd, items[i]);
      CarriedStep(ms, items[..i], msg, items[i]);
      if msg.time < minTime {
        minTime := msg.time;
      }
      if msg.endTs > maxTime {
        maxTime := msg.endTs;
      }
    }
    assert items[..|items|] == items;
    KeysNamed(xsd.order, xsd.swimlanes, items);
  }

  /** The grid's dataBound handler: empty the diagram, add one message per
      item of the page in page order (selecting each in turn, so the last
      one stays selected), and then set the window to the page's span --
      unless the rebuild was caused by a zoom, which keeps the window.
      Either way the zoom flag is cleared. */
  method DataBound(xsd: Diagram, items: seq<TraceRecord>)
    requires xsd.Valid()
    modifies xsd`msgs, xsd`lastSwimlaneAdded, xsd`swimlanes, xsd`order, xsd`selectedMessageId
    modifies xsd`startTime, xsd`endTime, xsd`timeDuration, xsd`zoomAction
    ensures xsd.Valid() && !xsd.zoomAction
    ensures Rebuilt(xsd, items, old(xsd.selectedMessageId))
    ensures !old(xsd.zoomAction) ==>
      Window(xsd.startTime, xsd.endTime) == PaddedWindow(MinTime(items), MaxEnd(items), xsd.canvasHeight)
    ensures old(xsd.zoomAction) ==>
      xsd.startTime == old(xsd.startTime) && xsd.endTime == old(xsd.endTime) && xsd.timeDuration == old(xsd.timeDuration)
  {
    ghost var sel := xsd.selectedMessageId;
    var minTime, maxTime := Rebuild(xsd, items);
    assert xsd.zoomAction == old(xsd.zoomAction) && xsd.startTime == old(xsd.startTime);
    assert xsd.endTime == old(xsd.endTime) && xsd.timeDuration == old(xsd.timeDuration);
    SetWindow(xsd, minTime, maxTime, items, sel);
  }

  /** Setting the window leaves what the rebuild built. */
  twostate lemma RebuiltKept(xsd: Diagram, new items: seq<TraceRecord>, new sel: Option<string>)
    requires old(Rebuilt(xsd, items, sel))
    requires unchanged(xsd`msgs, xsd`order, xsd`swimlanes, xsd`lastSwimlaneAdded, xsd`selectedMessageId)
    requires unchanged(old(xsd.swimlanes.Values))
    ensures Rebuilt(xsd, items, sel)
  {
  }

  /** The first part of dataBound: empty the diagram and add the page. */
  method Rebuild(xsd: Diagram, items: seq<TraceRecord>) returns (minTime: real, maxTime: real)
    requires xsd.Valid()
    modifies xsd`msgs, xsd`lastSwimlaneAdded, xsd`swimlanes, xsd`order, xsd`selectedMessageId
    ensures xsd.Valid() && Rebuilt(xsd, items, old(xsd.selectedMessageId))
    ensures minTime == MinTime(items) && maxTime == MaxEnd(items)
  {
    Clear(xsd);
    minTime, maxTime := AddPage(xsd, items);
  }

  /** What the forEach of dataBound leaves: the page shown, the lanes laid
      out, and the last item's message selected (sel, the selection before,
      on an empty page). */
  ghost predicate Rebuilt(xsd: Diagram, items: seq<TraceRecord>, sel: Option<string>)
    reads xsd`msgs, xsd`order, xsd`swimlanes, xsd`lastSwimlaneAdded, xsd`selectedMessageId, xsd.swimlanes.Values
  {
    && Shows(xsd.msgs, xsd.order, xsd.swimlanes, items) && LaidOut(xsd)
    && (items != [] ==> xsd.selectedMessageId == Some(items[|items| - 1].id))
    && (items == [] ==> xsd.selectedMessageId == sel)
  }

  /** The end of dataBound: a rebuild caused by a zoom keeps the window the
      zoom chose; any other rebuild sets it to the given span. The zoom
      flag is cleared either way, and what the rebuild of items built
      stays as it was. */
  method SetWindow(xsd: Diagram, minTime: real, maxTime: real, ghost items: seq<TraceRecord>, ghost sel: Option<string>)
    requires xsd.Valid() && Rebuilt(xsd, items, sel)
    modifies xsd`startTime, xsd`endTime, xsd`timeDuration, xsd`zoomAction
    ensures xsd.Valid() && !xsd.zoomAction && Rebuilt(xsd, items, sel)
    ensures !old(xsd.zoomAction) ==>
      Window(xsd.startTime, xsd.endTime) == PaddedWindow(minTime, maxTime, xsd.canvasHeight)
    ensures old(xsd.zoomAction) ==>
      xsd.startTime == old(xsd.startTime) && xsd.endTime == old(xsd.endTime) && xsd.timeDuration == old(xsd.timeDuration)
  {
    if !xsd.zoomAction {
      xsd.CanvasSetTime(minTime, maxTime);
    }
    xsd.zoomAction := false;
    RebuiltKept(xsd, items, sel);
  }

  // ---------------------------------------------------------------------
  // The decoder table

  /** Flit f is the one `new Flit(specs)` builds: one field per spec, in
      order, and no value yet. */
  ghost predicate BuiltFrom(f: Flit, specs: seq<FieldSpec>)
    reads f, f.fields
  {
    && |f.fields| == |specs| && f.rawValue == None
    && forall i :: 0 <= i < |specs| ==>
      f.fields[i].name == specs[i].name && f.fields[i].msb == specs[i].msb &&
      f.fields[i].lsb == specs[i].lsb && f.fields[i].valueNames == specs[i].valueNames &&
      f.fields[i].value == specs[i].value
  }

  /** No two names of the table share a Flit. */
  predicate DistinctDecoders(decoders: map<string, Flit>)
  {
    forall k, k' :: k in decoders && k' in decoders && k != k' ==> decoders[k] != decoders[k']
  }

  /** No field object belongs to the decoders of two different names. */
  ghost predicate FieldsApart(decoders: map<string, Flit>)
    reads decoders.Values
  {
    forall k, k', i, j ::
      && k in decoders && k' in decoders && k != k'
      && 0 <= i < |decoders[k].fields| && 0 <= j < |decoders[k'].fields|
      ==> decoders[k].fields[i] != decoders[k'].fields[j]
  }

  /** One new Flit per entry of the decoder descriptions, under the same
      name, each with its own new fields; no two names share a Flit or a
      field. */
  method BuildDecoders(descriptions: map<string, seq<FieldSpec>>) returns (decoders: map<string, Flit>)
    ensures decoders.Keys == descriptions.Keys
    ensures forall k :: k in decoders ==> fresh(decoders[k]) && BuiltFrom(decoders[k], descriptions[k])
    ensures forall k, i :: k in decoders && 0 <= i < |decoders[k].fields| ==> fresh(decoders[k].fields[i])
    ensures forall k, k' :: k in decoders && k' in decoders && k != k' ==> decoders[k] != decoders[k']
    ensures FieldsApart(decoders)
  {
    decoders := map[];
    var todo := descriptions.Keys;
    while todo != {}
      invariant todo <= descriptions.Keys && decoders.Keys == descriptions.Keys - todo
      invariant forall k :: k in decoders ==> fresh(decoders[k]) && BuiltFrom(decoders[k], descriptions[k])
      invariant forall k, i :: k in decoders && 0 <= i < |decoders[k].fields| ==> fresh(decoders[k].fields[i])
      invariant DistinctDecoders(decoders) && FieldsApart(decoders)
      decreases todo
    {
      var name :| name in todo;
      var f := new Flit(descriptions[name]);
      assert forall k, i, j :: k in decoders && 0 <= i < |f.fields| && 0 <= j < |decoders[k].fields| ==>
        f.fields[i] != decoders[k].fields[j];
      decoders := decoders[name := f];
      todo := todo - {name};
    }
  }

  // ---------------------------------------------------------------------
  // Selecting a row of the grid

  /** The decoder a grid row names, if the table has it. */
  function DecoderOf(decoders: map<string, Flit>, item: TraceRecord): (f: Option<Flit>)
    ensures f.Some? <==> item.decoder.Some? && item.decoder.value in decoders
    ensures f.Some? ==> f.value == decoders[item.decoder.value]
  {
    if item.decoder.Some? && item.decoder.value in decoders then Some(decoders[item.decoder.value]) else None
  }

  /** The objects the selection handler may write: the row's decoder and
      its fields. */
  function Touched(decoders: map<string, Flit>, item: TraceRecord): set<object>
    reads if DecoderOf(decoders, item).Some? then {DecoderOf(decoders, item).value} else {}
  {
    match DecoderOf(decoders, item)
    case None => {}
    case Some(f) => {f as object} + set i | 0 <= i < |f.fields| :: f.fields[i] as object
  }

  /** In a table built as above, what the change handler may write for
      one row is apart from every other name's decoder and its fields. */
  lemma TouchedSeparate(decoders: map<string, Flit>, item: TraceRecord, k: string)
    requires DistinctDecoders(decoders) && FieldsApart(decoders)
    requires k in decoders && item.decoder != Some(k)
    ensures decoders[k] !in Touched(decoders, item)
    ensures forall i :: 0 <= i < |decoders[k].fields| ==> decoders[k].fields[i] !in Touched(decoders, item)
  {
  }

  /** The grid's change handler: select the row's message, then decode the
      row's flit with the row's decoder. ok is false when the row names no
      decoder the table stores, or has no flit, and then no decoder has
      changed. */
  method GridChange(xsd: Diagram, decoders: map<string, Flit>, item: TraceRecord) returns (ok: bool)
    modifies xsd`selectedMessageId, Touched(decoders, item)
    ensures xsd.selectedMessageId == Some(item.id)
    ensures ok <==> DecoderOf(decoders, item).Some? && item.flit.Some?
    ensures ok ==> var f := decoders[item.decoder.value];
      f.rawValue == Some(item.flit.value) && f.fields == old(f.fields) &&
      forall i :: 0 <= i < |f.fields| ==> f.fields[i].value == Some(FieldValue(item.flit.value, f.fields[i].msb, f.fields[i].lsb))
    ensures !ok ==> forall o :: o in old(Touched(decoders, item)) ==> unchanged(o)
  {
    xsd.selectedMessageId := Some(item.id);
    var decoded := DecoderOf(decoders, item);
    if decoded.None? || item.flit.None? {
      return false;
    }
    decoded.value.SetValue(item.flit.value);
    ok := true;
  }
}
