/** A node of the schematic editor: its name, its control panel, and the
    corner-fitting rule that keeps the node's rectangle around its controls
    while it is resized (editor/model/node/Node.cpp). Coordinates are the
    schematic grid's integer coordinates. */
module Nodes {
  import opened Wrappers
  import opened Geometry

  /** The node's own state. `size` is the (width, height) vector of its
      QSize; `pos` is its top-left corner. */
  datatype Node = Node(name: string, panelOpen: bool, panelHeight: real, pos: Point, size: Point)

  /** The signals a node emits from the setters modelled here. */
  datatype NodeEvent =
    | NameChanged(newName: string)
    | PanelOpenChanged(newPanelOpen: bool)
    | BeforePanelHeightChanged(newHeight: real)
    | PanelHeightChanged(newHeight: real)

  /** The node after a setter runs, and what the setter emitted. */
  datatype NodeStep = NodeStep(node: Node, events: seq<NodeEvent>)

  /** setName: store the name; announce it only when it changed. */
  function SetName(n: Node, name: string): (r: NodeStep)
    ensures r.node == n.(name := name)
    ensures r.events == [] <==> name == n.name
    ensures r.events != [] ==> r.events == [NameChanged(name)]
  {
    if name != n.name then NodeStep(n.(name := name), [NameChanged(name)]) else NodeStep(n, [])
  }

  /** setPanelOpen: store the flag; announce it only when it changed. */
  function SetPanelOpen(n: Node, open: bool): (r: NodeStep)
    ensures r.node == n.(panelOpen := open)
    ensures r.events == [] <==> open == n.panelOpen
    ensures r.events != [] ==> r.events == [PanelOpenChanged(open)]
  {
    if open != n.panelOpen then NodeStep(n.(panelOpen := open), [PanelOpenChanged(open)]) else NodeStep(n, [])
  }

  /** The height a requested panel height is raised to: never below
      `minHeight` (the class constant minPanelHeight), otherwise as asked. */
  function ClampPanelHeight(h: real, minHeight: real): (c: real)
    ensures c >= minHeight && c >= h
    ensures c == h || c == minHeight
  {
    if h < minHeight then minHeight else h
  }

  /** setPanelHeight: store the clamped height; when it differs from the
      stored one, emit the before- and after-change signals around the store. */
  function SetPanelHeight(n: Node, h: real, minHeight: real): (r: NodeStep)
    ensures r.node == n.(panelHeight := r.node.panelHeight)
    ensures r.node.panelHeight >= minHeight
    ensures r.node.panelHeight >= h
    ensures r.node.panelHeight == h || r.node.panelHeight == minHeight
    ensures r.events == [] <==> r.node.panelHeight == n.panelHeight
    ensures r.events != [] ==>
      r.events == [BeforePanelHeightChanged(r.node.panelHeight), PanelHeightChanged(r.node.panelHeight)]
  {
    var c := ClampPanelHeight(h, minHeight);
    if c != n.panelHeight then
      NodeStep(n.(panelHeight := c), [BeforePanelHeightChanged(c), PanelHeightChanged(c)])
    else
      NodeStep(n, [])
  }

  /** Repeating setName is silent and changes nothing. */
  lemma SetNameIdempotent(n: Node, name: string)
    ensures SetName(SetName(n, name).node, name) == NodeStep(SetName(n, name).node, [])
  {
  }

  /** Repeating setPanelOpen is silent and changes nothing. */
  lemma SetPanelOpenIdempotent(n: Node, open: bool)
    ensures SetPanelOpen(SetPanelOpen(n, open).node, open) == NodeStep(SetPanelOpen(n, open).node, [])
  {
  }

  /** Repeating setPanelHeight is silent and changes nothing. */
  lemma SetPanelHeightIdempotent(n: Node, h: real, minHeight: real)
    ensures SetPanelHeight(SetPanelHeight(n, h, minHeight).node, h, minHeight)
         == NodeStep(SetPanelHeight(n, h, minHeight).node, [])
  {
  }

  // ---------------------------------------------------------------------
  // Serialisation: the node's own fields follow the grid item's, in the
  // order name, panel-open flag, panel height.

  /** One field of the node's part of the stream. */
  datatype Field = NameField(name: string) | PanelOpenField(open: bool) | PanelHeightField(height: real)

  /** serialize: the node's fields in stream order. */
  function Serialize(n: Node): (fs: seq<Field>)
    ensures |fs| == 3
    ensures fs[0].NameField? && fs[1].PanelOpenField? && fs[2].PanelHeightField?
  {
    [NameField(n.name), PanelOpenField(n.panelOpen), PanelHeightField(n.panelHeight)]
  }

  /** deserialize: read the three fields in order and apply them through the
      setters, so the height is clamped and only changed fields are announced.
      A stream that does not hold the three fields in order gives None. */
  function Deserialize(n: Node, fs: seq<Field>, minHeight: real): (r: Option<NodeStep>)
    ensures r.Some? <==> |fs| == 3 && fs[0].NameField? && fs[1].PanelOpenField? && fs[2].PanelHeightField?
    ensures r.Some? ==>
      r.value.node == n.(name := fs[0].name, panelOpen := fs[1].open,
                         panelHeight := ClampPanelHeight(fs[2].height, minHeight))
    ensures r.Some? ==> |r.value.events| <= 4
  {
    if |fs| == 3 && fs[0].NameField? && fs[1].PanelOpenField? && fs[2].PanelHeightField? then
      var s1 := SetName(n, fs[0].name);
      var s2 := SetPanelOpen(s1.node, fs[1].open);
      var s3 := SetPanelHeight(s2.node, fs[2].height, minHeight);
      Some(NodeStep(s3.node, s1.events + s2.events + s3.events))
    else
      None
  }

  /** Loading a saved node into any node reproduces the saved fields,
      provided the saved height respects the minimum. */
  lemma SerializeRoundTrip(saved: Node, into: Node, minHeight: real)
    requires saved.panelHeight >= minHeight
    ensures Deserialize(into, Serialize(saved), minHeight).Some?
    ensures Deserialize(into, Serialize(saved), minHeight).value.node
         == into.(name := saved.name, panelOpen := saved.panelOpen, panelHeight := saved.panelHeight)
  {
  }

  /** Reloading a node's own fields into it is silent. */
  lemma ReloadIsSilent(n: Node, minHeight: real)
    requires n.panelHeight >= minHeight
    ensures Deserialize(n, Serialize(n), minHeight) == Some(NodeStep(n, []))
  {
  }

  // ---------------------------------------------------------------------
  // Corner fitting.

  /** A rectangle by its corners; for the controls' bounding region the
      corners may be inverted (top-left below/right of bottom-right). */
  datatype Box = Box(topLeft: Point, bottomRight: Point)

  datatype Axis = X | Y

  function Coord(p: Point, a: Axis): int {
    match a
    case X => p.x
    case Y => p.y
  }

  /** `v` is the controls region's low edge on axis `a`: the greatest value
      at or below the node's far corner and every item's top-left, and equal
      to one of them. */
  predicate LowEdge(v: int, a: Axis, pos: Point, size: Point, items: seq<Box>) {
    && v <= Coord(pos.Plus(size), a)
    && (forall i :: 0 <= i < |items| ==> v <= Coord(pos.Plus(items[i].topLeft), a))
    && (v == Coord(pos.Plus(size), a) ||
        exists i :: 0 <= i < |items| && v == Coord(pos.Plus(items[i].topLeft), a))
  }

  /** `v` is the controls region's high edge on axis `a`: the least value at
      or above the node's position and every item's bottom-right, and equal
      to one of them. */
  predicate HighEdge(v: int, a: Axis, pos: Point, size: Point, items: seq<Box>) {
    && v >= Coord(pos, a)
    && (forall i :: 0 <= i < |items| ==> v >= Coord(pos.Plus(items[i].bottomRight), a))
    && (v == Coord(pos, a) ||
        exists i :: 0 <= i < |items| && v == Coord(pos.Plus(items[i].bottomRight), a))
  }

  /** Taking the min with one more item's top-left extends a low edge to that item. */
  lemma LowEdgeStep(v: int, a: Axis, pos: Point, size: Point, items: seq<Box>)
    requires |items| > 0 && LowEdge(v, a, pos, size, items[..|items| - 1])
    ensures LowEdge(Min(v, Coord(pos.Plus(items[|items| - 1].topLeft), a)), a, pos, size, items)
  {
    var prefix := items[..|items| - 1];
    assert forall i :: 0 <= i < |prefix| ==> prefix[i] == items[i];
  }

  /** Taking the max with one more item's bottom-right extends a high edge to that item. */
  lemma HighEdgeStep(v: int, a: Axis, pos: Point, size: Point, items: seq<Box>)
    requires |items| > 0 && HighEdge(v, a, pos, size, items[..|items| - 1])
    ensures HighEdge(Max(v, Coord(pos.Plus(items[|items| - 1].bottomRight), a)), a, pos, size, items)
  {
    var prefix := items[..|items| - 1];
    assert forall i :: 0 <= i < |prefix| ==> prefix[i] == items[i];
  }

  /** The controls' bounding region in schematic space. Each item is given
      relative to the node's position, with the surface-to-schematic
      conversion already applied (top-left rounded down, bottom-right
      rounded up). The region starts inverted at (pos + size, pos) and each
      item lowers the top-left and raises the bottom-right, per axis. */
  function ControlsBounds(pos: Point, size: Point, items: seq<Box>): (b: Box)
    ensures LowEdge(b.topLeft.x, X, pos, size, items) && LowEdge(b.topLeft.y, Y, pos, size, items)
    ensures HighEdge(b.bottomRight.x, X, pos, size, items) && HighEdge(b.bottomRight.y, Y, pos, size, items)
  {
    if |items| == 0 then
      Box(pos.Plus(size), pos)
    else
      var b := ControlsBounds(pos, size, items[..|items| - 1]);
      var itemTopLeft := pos.Plus(items[|items| - 1].topLeft);
      var itemBottomRight := pos.Plus(items[|items| - 1].bottomRight);
      LowEdgeStep(b.topLeft.x, X, pos, size, items);
      LowEdgeStep(b.topLeft.y, Y, pos, size, items);
      HighEdgeStep(b.bottomRight.x, X, pos, size, items);
      HighEdgeStep(b.bottomRight.y, Y, pos, size, items);
      Box(Point(Min(b.topLeft.x, itemTopLeft.x), Min(b.topLeft.y, itemTopLeft.y)),
          Point(Max(b.bottomRight.x, itemBottomRight.x), Max(b.bottomRight.y, itemBottomRight.y)))
  }

  /** With no controls the region is the inverted box (pos + size, pos). */
  lemma NoControlsBounds(pos: Point, size: Point)
    ensures ControlsBounds(pos, size, []) == Box(pos.Plus(size), pos)
  {
  }

  /** The outcome of fitting one axis: the new low (top or left) and high
      (bottom or right) edge, and how far the controls move along the axis. */
  datatype AxisFit = AxisFit(low: int, high: int, shift: int)

  /** One axis of setCorners. `low`/`high` are the requested edges,
      `initLow`/`initHigh` the node's current edges, `ctlLow`/`ctlHigh` the
      controls' bounding region. A moved low edge is pulled back so the
      controls still fit below the requested high edge; then a moved high
      edge is pushed out so they fit after the adjusted low edge. The shift
      moves the controls by the least amount that brings them inside. */
  function FitAxis(low: int, high: int, initLow: int, initHigh: int, ctlLow: int, ctlHigh: int): (f: AxisFit)
    ensures low == initLow ==> f.low == low
    ensures high == initHigh ==> f.high == high
    ensures f.low <= low && f.high >= high
    ensures low != initLow ==> f.low <= high - (ctlHigh - ctlLow)
    ensures high != initHigh ==> f.high >= f.low + (ctlHigh - ctlLow)
    ensures f.low == low || f.low == high - (ctlHigh - ctlLow)
    ensures f.high == high || f.high == f.low + (ctlHigh - ctlLow)
    ensures (low != initLow || high != initHigh) ==> f.high - f.low >= ctlHigh - ctlLow
    ensures f.high - f.low >= ctlHigh - ctlLow ==>
      && f.low <= ctlLow + f.shift && ctlHigh + f.shift <= f.high
      && (f.low <= ctlLow && ctlHigh <= f.high ==> f.shift == 0)
      && (f.shift > 0 ==> ctlLow + f.shift == f.low)
      && (f.shift < 0 ==> ctlHigh + f.shift == f.high)
  {
    var controlsSize := ctlHigh - ctlLow;
    var low' := if low != initLow then Min(low, high - controlsSize) else low;
    var high' := if high != initHigh then Max(high, low' + controlsSize) else high;
    AxisFit(low', high', Max(0, low' - ctlLow) + Min(0, high' - ctlHigh))
  }

  /** When both edges of an axis move, the requested high edge is kept:
      pulling the low edge back already made room for the controls. */
  lemma BothEdgesMovedKeepsHigh(low: int, high: int, initLow: int, initHigh: int, ctlLow: int, ctlHigh: int)
    requires low != initLow && high != initHigh
    ensures FitAxis(low, high, initLow, initHigh, ctlLow, ctlHigh).high == high
  {
  }

  /** The result of setCorners: the fitted corners handed to the grid item,
      and the shift applied to the controls in schematic space. */
  datatype CornerFit = CornerFit(topLeft: Point, bottomRight: Point, controlsShift: Point)

  /** setCorners: fit each axis independently against the controls' region. */
  function SetCorners(n: Node, items: seq<Box>, topLeft: Point, bottomRight: Point): (c: CornerFit)
    ensures forall a: Axis :: Coord(topLeft, a) == Coord(n.pos, a) ==>
      Coord(c.topLeft, a) == Coord(topLeft, a)
    ensures forall a: Axis :: Coord(bottomRight, a) == Coord(n.pos.Plus(n.size), a) ==>
      Coord(c.bottomRight, a) == Coord(bottomRight, a)
    ensures forall a: Axis :: Coord(c.topLeft, a) <= Coord(topLeft, a)
    ensures forall a: Axis :: Coord(c.bottomRight, a) >= Coord(bottomRight, a)
  {
    var region := ControlsBounds(n.pos, n.size, items);
    var initialBottomRight := n.pos.Plus(n.size);
    var fx := FitAxis(topLeft.x, bottomRight.x, n.pos.x, initialBottomRight.x,
                      region.topLeft.x, region.bottomRight.x);
    var fy := FitAxis(topLeft.y, bottomRight.y, n.pos.y, initialBottomRight.y,
                      region.topLeft.y, region.bottomRight.y);
    CornerFit(Point(fx.low, fy.low), Point(fx.high, fy.high), Point(fx.shift, fy.shift))
  }

  /** One axis: if the node's edges held the controls before, the fitted
      edges hold the shifted controls, and controls that fit stay put. */
  lemma FitAxisKeepsInside(low: int, high: int, initLow: int, initHigh: int, ctlLow: int, ctlHigh: int)
    requires initLow <= ctlLow && ctlHigh <= initHigh
    ensures var f := FitAxis(low, high, initLow, initHigh, ctlLow, ctlHigh);
            && f.low <= ctlLow + f.shift && ctlHigh + f.shift <= f.high
            && (f.low <= ctlLow && ctlHigh <= f.high ==> f.shift == 0)
  {
  }

  /** The node's rectangle contains the controls' bounding region. */
  predicate ContainsControls(n: Node, items: seq<Box>) {
    var region := ControlsBounds(n.pos, n.size, items);
    forall a: Axis :: Coord(n.pos, a) <= Coord(region.topLeft, a)
                   && Coord(region.bottomRight, a) <= Coord(n.pos.Plus(n.size), a)
  }

  /** If the node holds its controls before a resize, then after setCorners
      the shifted controls lie inside the new corners on both axes, and
      controls that already fit do not move. */
  lemma SetCornersKeepsControlsInside(n: Node, items: seq<Box>, topLeft: Point, bottomRight: Point)
    requires ContainsControls(n, items)
    ensures var region := ControlsBounds(n.pos, n.size, items);
            var c := SetCorners(n, items, topLeft, bottomRight);
            forall a: Axis ::
              && Coord(c.topLeft, a) <= Coord(region.topLeft.Plus(c.controlsShift), a)
              && Coord(region.bottomRight.Plus(c.controlsShift), a) <= Coord(c.bottomRight, a)
              && (Coord(c.topLeft, a) <= Coord(region.topLeft, a)
                  && Coord(region.bottomRight, a) <= Coord(c.bottomRight, a)
                  ==> Coord(c.controlsShift, a) == 0)
  {
    var region := ControlsBounds(n.pos, n.size, items);
    var initialBottomRight := n.pos.Plus(n.size);
    assert Coord(n.pos, X) <= Coord(region.topLeft, X) && Coord(region.bottomRight, X) <= Coord(initialBottomRight, X);
    assert Coord(n.pos, Y) <= Coord(region.topLeft, Y) && Coord(region.bottomRight, Y) <= Coord(initialBottomRight, Y);
    FitAxisKeepsInside(topLeft.x, bottomRight.x, n.pos.x, initialBottomRight.x,
                       region.topLeft.x, region.bottomRight.x);
    FitAxisKeepsInside(topLeft.y, bottomRight.y, n.pos.y, initialBottomRight.y,
                       region.topLeft.y, region.bottomRight.y);
  }
}
