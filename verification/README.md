# Axiom editor and compiler core: control types, connection sinks, node geometry

This project models three small pieces of the Axiom modular-synthesizer
editor and compiler in Dafny and proves properties of them:

- **Control-type names** (`ControlTypes`, `control_type.dfy`): the closed set of
  control kinds (number, graph, MIDI, roll, and the "extracted" array forms of
  number and MIDI) and the short names the compiler builds symbol names from.
- **Connection sinks** (`ConnectionSinks`, `connection_sink.dfy`): the port end
  of a control. It keeps an ordered list of attached wires, an active flag and
  a position. Every slot is a pure function from the old sink to a `Step`: the
  new sink plus the signals emitted, in order. Reading a field of the `Sink`
  record stands for the pure getters `connections()`, `pos()`, `subPos()` and
  `active()`.
- **Node geometry** (`Nodes`, `node.dfy`): the name, panel-open and
  panel-height setters, the panel-height clamp, the field order of
  serialisation, and the integer corner fitting done by `setCorners`. While a
  node is resized, that fitting keeps the node's rectangle around the bounding
  region of its controls.

`Geometry` (`geometry.dfy`) holds the integer point (QPoint, also used for a
QSize as a width/height vector), the real point (QPointF), and `Min`/`Max`.
`Wrappers` (`wrappers.dfy`) holds `Option`, where `None` stands for a null pointer.

Wires, sinks and controls are opaque identifiers. A `Wire` record carries its
two end sinks, and two wires are the same wire exactly when the records are
equal. Qt signals are an event list, so "emits only on change" can be stated.

## Model

| member | source | states |
|---|---|---|
| ControlTypes.Name | compiler/common/ControlType.cpp:7-24 | every control type has a non-empty name, and a name ends in "[]" exactly when the type is one of the two extracted types |
| ControlTypes.Parse | compiler/common/ControlType.cpp:8-20 | inverse of the naming: any string it maps to a type is exactly that type's name |
| ControlTypes.ParseName | compiler/common/ControlType.cpp:8-20 | parsing a type's name gives back the type, so each of the six names identifies its type |
| ControlTypes.NameInjective | compiler/common/ControlType.cpp:8-20 | two distinct control types never share a name, which keeps generated symbol names unambiguous |
| ControlTypes.ExtractedName | compiler/common/ControlType.cpp:9-20 | the name of num[] and midi[] is the name of its scalar base type with "[]" appended |
| ConnectionSinks.NewSink | editor/model/connection/ConnectionSink.h:79-82 | a new sink has the given type and control, no wires, and is inactive |
| ConnectionSinks.Runtime | editor/model/connection/ConnectionSink.cpp:12-14 | with no control attached the runtime is null; otherwise it is the attached control's own runtime |
| ConnectionSinks.Ref | editor/model/connection/ConnectionSink.cpp:16-18 | with no control attached the reference is the default-constructed one; otherwise it is the attached control's own reference |
| ConnectionSinks.GetConnectingWire | editor/model/connection/ConnectionSink.cpp:20-25 | the result is null exactly when no attached wire touches the peer; otherwise it is the wire at the least index that touches the peer at either end |
| ConnectionSinks.AddWire | editor/model/connection/ConnectionSink.cpp:27-34 | the old wire list is an unchanged prefix, the new wire is the one extra element at the end, nothing else in the sink changes, and exactly one connectionAdded is emitted |
| ConnectionSinks.IndexOf | editor/model/connection/ConnectionSink.cpp:61 | the find result is the first position holding the wire; it is the end of the list exactly when the wire is absent |
| ConnectionSinks.RemoveWire | editor/model/connection/ConnectionSink.cpp:60-66 | an absent wire is a silent no-op; a present wire loses exactly its first occurrence, with the others kept in order, and one connectionRemoved is emitted; the multiset of wires drops by one copy of the wire |
| ConnectionSinks.RemoveHead | editor/model/connection/ConnectionSink.cpp:60-65 | removing the front wire leaves exactly the tail of the list and announces that wire |
| ConnectionSinks.RemoveWireKeepsOthers | editor/model/connection/ConnectionSink.cpp:60-65 | one removeWire of a wire leaves every other wire in place and in order |
| ConnectionSinks.RunRemoveHandler | editor/model/connection/ConnectionSink.cpp:30-31 | one run of the removed-signal handler for a wire takes one copy of that wire out, keeps every other wire in order, and announces the wire exactly when it was attached |
| ConnectionSinks.RemoveFront | editor/model/connection/ConnectionSink.cpp:56 | `m_connections[0]->remove()` runs one handler per attachment of the front wire: every copy of that wire is removed, the other wires stay in order, the rest of the sink is unchanged, and the wire is announced once per copy; a front wire attached once leaves exactly the tail and one announcement |
| ConnectionSinks.ClearConnections | editor/model/connection/ConnectionSink.cpp:54-58 | the loop ends with no wires and the rest of the sink unchanged; the announcements are one connectionRemoved per attachment, a permutation of the original list, and exactly the original list order when no wire is attached twice |
| ConnectionSinks.SetPos | editor/model/connection/ConnectionSink.cpp:36-45 | both components are stored; posChanged fires exactly when the position differs and subPosChanged exactly when the sub-position differs, each at most once, position first |
| ConnectionSinks.SetActive | editor/model/connection/ConnectionSink.cpp:47-52 | the flag is stored, and activeChanged is emitted exactly when it differs from the old flag |
| ConnectionSinks.SetActiveIdempotent | editor/model/connection/ConnectionSink.cpp:47-52 | a second setActive with the same flag is silent and changes nothing |
| ConnectionSinks.SetPosIdempotent | editor/model/connection/ConnectionSink.cpp:36-45 | a second setPos with the same arguments is silent and changes nothing |
| ConnectionSinks.AddThenRemove | editor/model/connection/ConnectionSink.cpp:27-65 | attaching a wire that was not attached and then removing it restores the sink exactly |
| ConnectionSinks.KindIsFixed | editor/model/connection/ConnectionSink.h:27-32 | the sink's type (number or MIDI) is the same after every slot |
| Nodes.SetName | editor/model/node/Node.cpp:46-51 | the name is stored, and nameChanged is emitted exactly when it differs |
| Nodes.SetPanelOpen | editor/model/node/Node.cpp:53-58 | the flag is stored, and panelOpenChanged is emitted exactly when it differs |
| Nodes.ClampPanelHeight | editor/model/node/Node.cpp:60-61 | the clamped height is the least value that is at least both the request and the minimum panel height |
| Nodes.SetPanelHeight | editor/model/node/Node.cpp:60-67 | the stored height is never below the minimum and is the request or the minimum; the before/after pair is emitted exactly when the clamped value differs from the stored one |
| Nodes.SetNameIdempotent | editor/model/node/Node.cpp:46-51 | a second setName with the same name is silent and changes nothing |
| Nodes.SetPanelOpenIdempotent | editor/model/node/Node.cpp:53-58 | a second setPanelOpen with the same flag is silent and changes nothing |
| Nodes.SetPanelHeightIdempotent | editor/model/node/Node.cpp:60-67 | a second setPanelHeight with the same request is silent and changes nothing |
| Nodes.Serialize | editor/model/node/Node.cpp:146-152 | a node is saved as exactly three fields: the name, then the panel-open flag, then the panel height |
| Nodes.Deserialize | editor/model/node/Node.cpp:154-164 | a stream of name, panel-open flag and panel height, in that order, is accepted; the node then holds those values with the height clamped |
| Nodes.SerializeRoundTrip | editor/model/node/Node.cpp:146-164 | loading a saved node whose height respects the minimum reproduces its name, panel flag and height in any node |
| Nodes.ReloadIsSilent | editor/model/node/Node.cpp:146-164 | reloading a node's own saved fields into it changes nothing and emits no signal |
| Nodes.ControlsBounds | editor/model/node/Node.cpp:73-85 | per axis, the region's top-left is the greatest value at or below pos + size and every item's top-left, and is one of them; the bottom-right is the least value at or above pos and every item's bottom-right, and is one of them |
| Nodes.NoControlsBounds | editor/model/node/Node.cpp:74-75 | with no controls the region is the inverted box (pos + size, pos) |
| Nodes.FitAxis | editor/model/node/Node.cpp:87-108 | unmoved edges pass through; a moved low edge only decreases and leaves room for the controls before the requested high edge; a moved high edge only increases and leaves room after the adjusted low edge; once the node is big enough, the shift puts the controls inside, is zero when they already fit, and otherwise makes them flush with the edge they crossed |
| Nodes.BothEdgesMovedKeepsHigh | editor/model/node/Node.cpp:90-99 | when both edges of an axis move, the requested high edge is kept as given |
| Nodes.SetCorners | editor/model/node/Node.cpp:69-108 | on each axis, a corner coordinate equal to the node's current one is passed through; the top-left never grows and the bottom-right never shrinks |
| Nodes.FitAxisKeepsInside | editor/model/node/Node.cpp:87-108 | on one axis, if the controls lay inside the node before, the fitted edges hold the shifted controls, and controls already inside the fitted edges are not shifted |
| Nodes.SetCornersKeepsControlsInside | editor/model/node/Node.cpp:87-108 | if the node held its controls before, then after any setCorners the shifted controls lie inside the new corners on both axes, and controls that already fit are not moved |

## Left out

- The fatal default branch of `controlType2String` (a value outside the enumeration). The closed `ControlType` datatype cannot hold such a value, so the branch has no counterpart. ControlType.h, with the enumerators' numeric values, is not part of this model.
- `ControlTypes.Parse` has no counterpart in the source. It is the inverse used to state that the naming is injective.
- Qt signal/slot dispatch and `QObject` lifetimes. Signals are only the returned event list. The sink's `removed()` signal is not emitted by any operation modelled here.
- `ConnectionSinks.RemoveFront`: the number of handler runs is taken to be the number of copies of the front wire in the list. That holds while every attachment of the wire is still listed, which is the case unless a wire was attached again after its own `removed` signal had already run the handlers. Any other slot connected to a wire's `removed` signal is not modelled.
- `ConnectionSinks.SetPos`: QPointF equality in Qt is a fuzzy floating-point comparison. Here it is exact equality of reals.
- Panel heights are reals, not 32-bit floats, so NaN and rounding are not modelled.
- The `minPanelHeight` constant is declared in Node.h, which is not part of this model. It is a parameter `minHeight`.
- QPoint arithmetic is unbounded integer arithmetic here; 32-bit overflow is not modelled.
- `Nodes.SetCorners`: the surface/schematic conversions (`nodeSurfaceToSchematicFloor`, `nodeSurfaceToSchematicCeil`, `schematicToNodeSurface`) have bodies outside the modelled files. Items are taken as already converted, with the top-left floored and the bottom-right ceiled. `GridItem::setCorners`, the grid's `setRect`/`flushGrid` and moving each item by the shift are also left out. The model returns the fitted corners and the controls shift.
- `Nodes.Serialize`: its contract states the field count and kinds in order. The field values are stated by `SerializeRoundTrip` and `ReloadIsSilent`.
- `Nodes.Deserialize`: byte-level QDataStream encoding and the grid item's own fields are not modelled. A stream without the three fields in order gives `None`; the source does not check stream status and would apply whatever values were read.
- `Node::ref`, `finishResize`, `finishDragging`, `remove`, `removeWithoutOp`, `startResize`, `startDragging`, `isExtracted`, `doRuntimeUpdate`, `saveValue`, `restoreValue` and the constructor's `connect`: these are undo-history and runtime plumbing whose collaborators are not part of this model.
- The attached control's own `runtime()` and `ref()` are not modelled; they are parameters of `Runtime` and `Ref`.
