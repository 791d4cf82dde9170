/** A connection sink: the port end of a control, keeping the ordered list of
    wires attached to it, an active flag and its position on screen
    (editor/model/connection/ConnectionSink.h and ConnectionSink.cpp).
    Each slot is a pure function from the old sink to the new sink together
    with the signals it emits, in emission order. */
module ConnectionSinks {
  import opened Wrappers
  import opened Geometry

  /** ConnectionSink::Type: a sink carries numbers or MIDI, nothing else. */
  datatype SinkType = NumberSink | MidiSink

  /** Opaque identity of a sink, as a wire's endpoint. */
  type SinkId = nat

  /** Opaque identity of the NodeControl a sink belongs to. */
  type ControlId = nat

  /** A wire between two sinks. Two wires are the same wire exactly when the
      records are equal; `id` tells apart distinct wires between the same sinks. */
  datatype Wire = Wire(id: nat, sinkA: SinkId, sinkB: SinkId)

  /** The state of a sink. `kind` is the source's `const Type type`. */
  datatype Sink = Sink(
    kind: SinkType,
    connections: seq<Wire>,
    pos: Point,
    subPos: PointF,
    active: bool,
    control: Option<ControlId>)

  /** The signals a sink emits. */
  datatype SinkEvent =
    | ConnectionAdded(wire: Wire)
    | ConnectionRemoved(wire: Wire)
    | PosChanged(newPos: Point)
    | SubPosChanged(newSubPos: PointF)
    | ActiveChanged(newActive: bool)

  /** The sink after a slot runs, and what the slot emitted. */
  datatype Step = Step(sink: Sink, events: seq<SinkEvent>)

  /** The constructor: no wires, inactive, default-constructed positions. */
  function NewSink(kind: SinkType, control: Option<ControlId>): (s: Sink)
    ensures s.kind == kind && s.control == control
    ensures |s.connections| == 0 && !s.active
  {
    Sink(kind, [], Origin, OriginF, false, control)
  }

  /** runtime(): the control's runtime handle, or null without a control. */
  function Runtime<H>(s: Sink, runtimeOf: ControlId -> Option<H>): (r: Option<H>)
    ensures s.control.None? ==> r.None?
    ensures s.control.Some? ==> r == runtimeOf(s.control.value)
  {
    match s.control
    case None => None
    case Some(c) => runtimeOf(c)
  }

  /** ref(): the control's reference, or the default reference without a control. */
  function Ref<R>(s: Sink, refOf: ControlId -> R, defaultRef: R): (r: R)
    ensures s.control.None? ==> r == defaultRef
    ensures s.control.Some? ==> r == refOf(s.control.value)
  {
    match s.control
    case None => defaultRef
    case Some(c) => refOf(c)
  }

  /** True when the wire has `peer` at one of its ends. */
  predicate Touches(w: Wire, peer: SinkId) {
    w.sinkA == peer || w.sinkB == peer
  }

  /** getConnectingWire: the first attached wire, in list order, that touches
      `peer`, or null when none does. */
  method GetConnectingWire(s: Sink, peer: SinkId) returns (r: Option<Wire>)
    ensures r.None? <==> forall i :: 0 <= i < |s.connections| ==> !Touches(s.connections[i], peer)
    ensures r.Some? ==> exists i :: 0 <= i < |s.connections| && s.connections[i] == r.value
                                 && Touches(r.value, peer)
                                 && forall j :: 0 <= j < i ==> !Touches(s.connections[j], peer)
  {
    var k := 0;
    while k < |s.connections|
      invariant 0 <= k <= |s.connections|
      invariant forall j :: 0 <= j < k ==> !Touches(s.connections[j], peer)
    {
      if Touches(s.connections[k], peer) {
        return Some(s.connections[k]);
      }
      k := k + 1;
    }
    return None;
  }

  /** addWire: push the wire at the back and announce it. */
  function AddWire(s: Sink, w: Wire): (r: Step)
    ensures |r.sink.connections| == |s.connections| + 1
    ensures r.sink.connections[..|s.connections|] == s.connections
    ensures r.sink.connections[|s.connections|] == w
    ensures r.sink == s.(connections := r.sink.connections)
    ensures r.events == [ConnectionAdded(w)]
  {
    Step(s.(connections := s.connections + [w]), [ConnectionAdded(w)])
  }

  /** std::find: the index of the first occurrence of `w`, or |ws| when absent. */
  function IndexOf(ws: seq<Wire>, w: Wire): (i: nat)
    ensures i <= |ws|
    ensures i < |ws| ==> ws[i] == w
    ensures forall j :: 0 <= j < i ==> ws[j] != w
    ensures i < |ws| <==> w in ws
  {
    if |ws| == 0 then 0
    else if ws[0] == w then 0
    else 1 + IndexOf(ws[1..], w)
  }

  /** removeWire: erase the first occurrence of the wire and announce it;
      a wire that is not attached changes nothing and emits nothing. */
  function RemoveWire(s: Sink, w: Wire): (r: Step)
    ensures w !in s.connections ==> r == Step(s, [])
    ensures w in s.connections ==>
      && r.events == [ConnectionRemoved(w)]
      && exists i :: 0 <= i < |s.connections| && s.connections[i] == w && w !in s.connections[..i]
                  && r.sink.connections == s.connections[..i] + s.connections[i + 1..]
    ensures multiset(r.sink.connections) == multiset(s.connections) - multiset{w}
    ensures r.sink == s.(connections := r.sink.connections)
  {
    var i := IndexOf(s.connections, w);
    if i < |s.connections| then
      DropAt(s.connections, i);
      Step(s.(connections := s.connections[..i] + s.connections[i + 1..]), [ConnectionRemoved(w)])
    else
      Step(s, [])
  }

  /** Dropping the entry at `i` takes one copy of it out of the multiset. */
  lemma DropAt(ws: seq<Wire>, i: nat)
    requires i < |ws|
    ensures multiset(ws[..i] + ws[i + 1..]) == multiset(ws) - multiset{ws[i]}
  {
    assert ws == ws[..i] + [ws[i]] + ws[i + 1..];
  }

  /** Removing the head wire once leaves exactly the tail. */
  lemma RemoveHead(s: Sink)
    requires |s.connections| > 0
    ensures RemoveWire(s, s.connections[0]).sink.connections == s.connections[1..]
    ensures RemoveWire(s, s.connections[0]).events == [ConnectionRemoved(s.connections[0])]
  {
  }

  /** No wire occurs twice. */
  predicate Distinct(ws: seq<Wire>) {
    forall i, j :: 0 <= i < j < |ws| ==> ws[i] != ws[j]
  }

  /** The wires of `ws` other than `w`, in their order. */
  function Without(ws: seq<Wire>, w: Wire): seq<Wire> {
    if |ws| == 0 then []
    else if ws[0] == w then Without(ws[1..], w)
    else [ws[0]] + Without(ws[1..], w)
  }

  /** Leaving out a wire that is not there changes nothing. */
  lemma {:induction false} WithoutAbsent(ws: seq<Wire>, w: Wire)
    requires w !in ws
    ensures Without(ws, w) == ws
    decreases |ws|
  {
    if |ws| > 0 {
      assert w !in ws[1..];
      WithoutAbsent(ws[1..], w);
      assert ws == [ws[0]] + ws[1..];
    }
  }

  /** Leaving out a wire that is there makes the list shorter. */
  lemma {:induction false} WithoutShorter(ws: seq<Wire>, w: Wire)
    ensures |Without(ws, w)| <= |ws|
    ensures w in ws ==> |Without(ws, w)| < |ws|
    decreases |ws|
  {
    if |ws| > 0 {
      WithoutShorter(ws[1..], w);
      assert w in ws && ws[0] != w ==> w in ws[1..];
    }
  }

  /** Every wire other than `w` keeps its number of copies. */
  lemma {:induction false} WithoutCounts(ws: seq<Wire>, w: Wire)
    ensures forall x :: x != w ==> multiset(Without(ws, w))[x] == multiset(ws)[x]
    ensures multiset(Without(ws, w))[w] == 0
    decreases |ws|
  {
    if |ws| > 0 {
      assert ws == [ws[0]] + ws[1..];
      WithoutCounts(ws[1..], w);
    }
  }

  /** Without, one front element at a time. */
  lemma WithoutCons(x: Wire, rest: seq<Wire>, w: Wire)
    ensures Without([x] + rest, w) == (if x == w then [] else [x]) + Without(rest, w)
  {
    assert ([x] + rest)[1..] == rest;
  }

  lemma {:induction false} WithoutAppend(a: seq<Wire>, b: seq<Wire>, w: Wire)
    ensures Without(a + b, w) == Without(a, w) + Without(b, w)
    decreases |a|
  {
    if |a| == 0 {
      assert a + b == b;
    } else {
      assert a == [a[0]] + a[1..];
      assert a + b == [a[0]] + (a[1..] + b);
      WithoutCons(a[0], a[1..] + b, w);
      WithoutCons(a[0], a[1..], w);
      WithoutAppend(a[1..], b, w);
    }
  }

  /** One run of removeWire never changes which other wires are attached, nor their order. */
  lemma RemoveWireKeepsOthers(s: Sink, w: Wire)
    ensures Without(RemoveWire(s, w).sink.connections, w) == Without(s.connections, w)
  {
    var ws := s.connections;
    var i := IndexOf(ws, w);
    if i < |ws| {
      assert ws == ws[..i] + ([w] + ws[i + 1..]);
      WithoutAppend(ws[..i], [w] + ws[i + 1..], w);
      WithoutAppend([w], ws[i + 1..], w);
      WithoutAppend(ws[..i], ws[i + 1..], w);
    }
  }

  /** The handler addWire connects to a wire's `removed` signal: one run of
      removeWire(w). At most one copy of `w` goes, announced once, and the
      other wires stay as they were. */
  method RunRemoveHandler(s: Sink, w: Wire) returns (r: Step)
    ensures r.sink == s.(connections := r.sink.connections)
    ensures Without(r.sink.connections, w) == Without(s.connections, w)
    ensures multiset(r.sink.connections)[w]
         == if w in s.connections then multiset(s.connections)[w] - 1 else 0
    ensures r.events == if w in s.connections then [ConnectionRemoved(w)] else []
  {
    r := RemoveWire(s, w);
    RemoveWireKeepsOthers(s, w);
  }

  /** `n` wires all equal to `w`. */
  function Repeat(w: Wire, n: nat): (r: seq<Wire>)
    ensures |r| == n
    ensures forall i :: 0 <= i < n ==> r[i] == w
  {
    seq(n, _ => w)
  }

  lemma {:induction false} MultisetRepeat(w: Wire, n: nat)
    ensures forall x :: multiset(Repeat(w, n))[x] == if x == w then n else 0
    decreases n
  {
    if n > 0 {
      assert Repeat(w, n) == Repeat(w, n - 1) + [w];
      MultisetRepeat(w, n - 1);
    } else {
      assert Repeat(w, n) == [];
    }
  }

  /** The removal announcements for `ws`, in order. */
  function Removals(ws: seq<Wire>): (r: seq<SinkEvent>)
    ensures |r| == |ws|
    ensures forall i :: 0 <= i < |ws| ==> r[i] == ConnectionRemoved(ws[i])
  {
    seq(|ws|, i requires 0 <= i < |ws| => ConnectionRemoved(ws[i]))
  }

  /** `m_connections[0]->remove()`. The wire's `removed` signal runs every
      handler addWire connected on this sink, one per attachment, so there
      is one handler for each copy of the wire in the list. All copies of the
      front wire go, the other wires keep their order, and one
      connectionRemoved is announced per copy. */
  method RemoveFront(s: Sink) returns (r: Step)
    requires |s.connections| > 0
    ensures r.sink == s.(connections := Without(s.connections, s.connections[0]))
    ensures |r.sink.connections| < |s.connections|
    ensures |r.events| == multiset(s.connections)[s.connections[0]]
    ensures forall i :: 0 <= i < |r.events| ==> r.events[i] == ConnectionRemoved(s.connections[0])
    ensures s.connections[0] !in s.connections[1..] ==>
      r.sink.connections == s.connections[1..] && |r.events| == 1
  {
    var w := s.connections[0];
    WithoutShorter(s.connections, w);
    if w !in s.connections[1..] {
      FrontOnlyCopy(s.connections);
    }
    var handlers := multiset(s.connections)[w];
    r := Step(s, []);
    var k := 0;
    while k < handlers
      invariant k <= handlers
      invariant r.sink == s.(connections := r.sink.connections)
      invariant Without(r.sink.connections, w) == Without(s.connections, w)
      invariant multiset(r.sink.connections)[w] == handlers - k
      invariant |r.events| == k
      invariant forall i :: 0 <= i < |r.events| ==> r.events[i] == ConnectionRemoved(w)
    {
      var step := RunRemoveHandler(r.sink, w);
      r := Step(step.sink, r.events + step.events);
      k := k + 1;
    }
    WithoutAbsent(r.sink.connections, w);
  }

  /** When the front wire has no second copy, it is the only copy and
      removing it leaves the tail. */
  lemma FrontOnlyCopy(cur: seq<Wire>)
    requires |cur| > 0 && cur[0] !in cur[1..]
    ensures multiset(cur)[cur[0]] == 1
    ensures Without(cur, cur[0]) == cur[1..]
  {
    assert cur == [cur[0]] + cur[1..];
    WithoutAbsent(cur[1..], cur[0]);
  }

  lemma RemovalsAppend(a: seq<Wire>, b: seq<Wire>)
    ensures Removals(a + b) == Removals(a) + Removals(b)
  {
    assert |Removals(a + b)| == |Removals(a) + Removals(b)|;
  }

  /** Taking every copy of the front wire out keeps the multiset of wires:
      the copies removed plus the wires left are the wires before. */
  lemma FrontCopiesSplit(ws: seq<Wire>, w: Wire)
    ensures multiset(Repeat(w, multiset(ws)[w])) + multiset(Without(ws, w)) == multiset(ws)
  {
    MultisetRepeat(w, multiset(ws)[w]);
    WithoutCounts(ws, w);
    var left := multiset(Repeat(w, multiset(ws)[w])) + multiset(Without(ws, w));
    assert forall x :: left[x] == multiset(ws)[x];
  }

  /** In a list without repeats, the front of any suffix has no second copy. */
  lemma DistinctFront(ws: seq<Wire>, removed: seq<Wire>, cur: seq<Wire>)
    requires Distinct(ws) && removed + cur == ws && |cur| > 0
    ensures cur[0] !in cur[1..]
  {
    var k := |removed|;
    forall j | 1 <= j < |cur| ensures cur[j] != cur[0] {
      assert cur[j] == ws[k + j] && cur[0] == ws[k];
    }
  }

  /** One round of the clearing loop keeps its count: the wires announced
      so far plus the wires left are the wires at the start. */
  lemma ClearCountStep(ws: seq<Wire>, removed: seq<Wire>, cur: seq<Wire>)
    requires |cur| > 0
    requires multiset(removed) + multiset(cur) == multiset(ws)
    ensures multiset(removed + Repeat(cur[0], multiset(cur)[cur[0]])) + multiset(Without(cur, cur[0]))
         == multiset(ws)
  {
    FrontCopiesSplit(cur, cur[0]);
  }

  /** Without repeats, one round of the clearing loop moves the front wire
      from the wires left to the wires announced. */
  lemma ClearDistinctStep(ws: seq<Wire>, removed: seq<Wire>, cur: seq<Wire>)
    requires Distinct(ws) && removed + cur == ws && |cur| > 0
    ensures cur[0] !in cur[1..]
    ensures Repeat(cur[0], multiset(cur)[cur[0]]) == [cur[0]]
    ensures removed + [cur[0]] + cur[1..] == ws
  {
    DistinctFront(ws, removed, cur);
    FrontOnlyCopy(cur);
    assert [cur[0]] + cur[1..] == cur;
  }

  /** The clearing loop's bookkeeping: the wires announced so far plus the
      wires left are the wires at the start, and without repeats they are
      the start list split in two. */
  predicate ClearInvariant(ws: seq<Wire>, removed: seq<Wire>, rest: seq<Wire>, events: seq<SinkEvent>) {
    && multiset(removed) + multiset(rest) == multiset(ws)
    && events == Removals(removed)
    && (Distinct(ws) ==> removed + rest == ws)
  }

  /** `n` announcements of `w` are the announcements of `n` copies of `w`. */
  lemma RemovalsOfCopies(events: seq<SinkEvent>, w: Wire, n: nat)
    requires |events| == n
    requires forall i :: 0 <= i < |events| ==> events[i] == ConnectionRemoved(w)
    ensures events == Removals(Repeat(w, n))
  {
  }

  /** Once nothing is left, the announced wires are the start wires. */
  lemma ClearDone(ws: seq<Wire>, removed: seq<Wire>, events: seq<SinkEvent>)
    requires ClearInvariant(ws, removed, [], events)
    ensures exists order :: multiset(order) == multiset(ws) && events == Removals(order)
    ensures Distinct(ws) ==> events == Removals(ws)
  {
    assert multiset(removed) == multiset(ws);
    assert Distinct(ws) ==> removed == removed + [];
  }

  /** One round of the clearing loop keeps its bookkeeping. */
  lemma ClearRound(ws: seq<Wire>, removed: seq<Wire>, cur: seq<Wire>, events: seq<SinkEvent>,
                   rest: seq<Wire>, roundEvents: seq<SinkEvent>)
    requires |cur| > 0 && ClearInvariant(ws, removed, cur, events)
    requires rest == Without(cur, cur[0])
    requires cur[0] !in cur[1..] ==> rest == cur[1..]
    requires roundEvents == Removals(Repeat(cur[0], multiset(cur)[cur[0]]))
    ensures ClearInvariant(ws, removed + Repeat(cur[0], multiset(cur)[cur[0]]), rest, events + roundEvents)
  {
    var copies := Repeat(cur[0], multiset(cur)[cur[0]]);
    ClearCountStep(ws, removed, cur);
    RemovalsAppend(removed, copies);
    if Distinct(ws) {
      ClearDistinctStep(ws, removed, cur);
    }
  }

  /** clearConnections: removes the front wire until none is left. Every
      attached wire is announced once per attachment, grouped by wire in the
      order the wires first appear; without repeats that is the list order. */
  method ClearConnections(s: Sink) returns (r: Step)
    ensures r.sink == s.(connections := [])
    ensures exists order :: multiset(order) == multiset(s.connections) && r.events == Removals(order)
    ensures Distinct(s.connections) ==> r.events == Removals(s.connections)
  {
    var cur := s;
    var events: seq<SinkEvent> := [];
    var removed: seq<Wire> := [];
    while |cur.connections| > 0
      invariant cur == s.(connections := cur.connections)
      invariant ClearInvariant(s.connections, removed, cur.connections, events)
      decreases |cur.connections|
    {
      var w := cur.connections[0];
      var copies := Repeat(w, multiset(cur.connections)[w]);
      var step := RemoveFront(cur);
      RemovalsOfCopies(step.events, w, multiset(cur.connections)[w]);
      ClearRound(s.connections, removed, cur.connections, events, step.sink.connections, step.events);
      removed := removed + copies;
      events := events + step.events;
      cur := step.sink;
    }
    r := Step(cur, events);
    ClearDone(s.connections, removed, events);
  }

  /** setPos: each component is stored, and its signal fires only when that
      component differs from the stored one; position before sub-position. */
  function SetPos(s: Sink, p: Point, sp: PointF): (r: Step)
    ensures r.sink == s.(pos := p, subPos := sp)
    ensures PosChanged(p) in r.events <==> p != s.pos
    ensures SubPosChanged(sp) in r.events <==> sp != s.subPos
    ensures forall e :: e in r.events ==> e == PosChanged(p) || e == SubPosChanged(sp)
    ensures |r.events| <= 2
    ensures |r.events| == 2 ==> r.events[0] == PosChanged(p) && r.events[1] == SubPosChanged(sp)
  {
    var posEvents := if p != s.pos then [PosChanged(p)] else [];
    var subPosEvents := if sp != s.subPos then [SubPosChanged(sp)] else [];
    Step(s.(pos := p, subPos := sp), posEvents + subPosEvents)
  }

  /** setActive: store the flag; announce it only when it changed. */
  function SetActive(s: Sink, b: bool): (r: Step)
    ensures r.sink == s.(active := b)
    ensures r.events == [] <==> b == s.active
    ensures r.events != [] ==> r.events == [ActiveChanged(b)]
  {
    if b != s.active then Step(s.(active := b), [ActiveChanged(b)]) else Step(s, [])
  }

  /** Setting the same flag twice: the second call is silent and changes nothing. */
  lemma SetActiveIdempotent(s: Sink, b: bool)
    ensures SetActive(SetActive(s, b).sink, b) == Step(SetActive(s, b).sink, [])
  {
  }

  /** Setting the same position twice: the second call is silent and changes nothing. */
  lemma SetPosIdempotent(s: Sink, p: Point, sp: PointF)
    ensures SetPos(SetPos(s, p, sp).sink, p, sp) == Step(SetPos(s, p, sp).sink, [])
  {
  }

  /** Attaching a fresh wire and then removing it restores the sink exactly. */
  lemma AddThenRemove(s: Sink, w: Wire)
    requires w !in s.connections
    ensures RemoveWire(AddWire(s, w).sink, w) == Step(s, [ConnectionRemoved(w)])
  {
  }

  /** No slot changes the sink's type. */
  lemma KindIsFixed(s: Sink, w: Wire, p: Point, sp: PointF, b: bool)
    ensures AddWire(s, w).sink.kind == s.kind
    ensures RemoveWire(s, w).sink.kind == s.kind
    ensures SetPos(s, p, sp).sink.kind == s.kind
    ensures SetActive(s, b).sink.kind == s.kind
  {
  }
}
