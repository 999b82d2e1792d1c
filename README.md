# Overlap2D scene-editor input handling, modelled in Dafny

This project models two pieces of the Overlap2D 2D scene editor.

The first is the **sandbox input adapter**, the listener attached to every scene item. It handles:

- **Press.** A press changes the selection. Plain click selects only the pressed item. Shift-click adds it. A plain click on a layer-locked item clears the selection; a shift-click adds even a locked item. Unless the camera is panning, the press records each selected item's offset from the pointer.
- **Drag.** Drag samples move every selected item. The target is either snapped to the editor grid or, in reduced mode, locked to the axis chosen by the first sample. Each rectangle's offset is snapped to the grid, stored back in the rectangle, and the rectangle is hidden.
- **Release.** A release completes a shift-click toggle, opens the context menu on a right click, shows the rectangles again, saves a dirty scene and clears the flags.
- **Double click and scroll.** A double click enters a composite and records a history step. The scroll wheel rotates a touched selection, or zooms with left alt.
- **Release over empty space.** This clears the selection on a right click, ends a pan, or completes a rubber-band selection.

The second is the **items tree box mediator**. It subscribes to scene notifications. It rebuilds the tree when a scene is loaded or an item is added. A selection made in the tree becomes one singleton "set selection" message per node whose entity still exists.

Files:

- `geometry.dfy`: points, the toolkit's fast floor and snapping to the grid, and the one-axis ("reduced") move.
- `gdx_input.dfy`: the key and button codes, and a snapshot of which keys and buttons are held.
- `sandbox_session.dfy`: the editor session the handlers act on, a class `Sandbox`. It holds:
  - the items;
  - the selection, a map from item to its selection rectangle;
  - the flags `isItemTouched`, `dirty`, `cameraPanOn` and `isResizing`;
  - the grid size;
  - a log of the side effects the handlers trigger.
- `sandbox_input_adapter.dfy`: specification functions and lemmas for each gesture, and the class `InputAdapter`. Its methods are proved against those functions. Two whole-gesture methods chain the listener callbacks.
- `items_tree_box_mediator.dfy`: the notification interests and handling, proved against a recursive definition of the selection messages.

Three details of the code are easy to misread:

- A grid drag rounds both the pointer and the press offset with the toolkit's fast floor (`MathUtils.floor`). It does not round to the nearest multiple.
- That fast floor is `(int)(x + 16384) - 16384`. It equals the mathematical floor only for x >= -16384. Below that, the cast truncates toward zero, so it rounds up. For example, v = -40001 with grid 2 snaps to -40000, not -40002. The model computes it the same way (`Geometry.FastFloorDiv`).
- The 30-degree scroll step depends on left shift only. Right shift does not count, unlike every other shift test in the adapter.

## Model

| member | source | states |
|---|---|---|
| Geometry.TruncDiv | src/com/uwsoft/editor/gdx/sandbox/SandboxInputAdapter.java:165-166 | The Java cast of a quotient to int rounds toward zero. For a >= 0 the result q has q*g <= a < q*g + g. For a < 0 it has q*g - g < a <= q*g. |
| Geometry.FastFloorDiv | src/com/uwsoft/editor/gdx/sandbox/SandboxInputAdapter.java:165-166 | `MathUtils.floor(v / g)` computed as the truncation of v/g + 16384, minus 16384. For v >= -16384*g the result is the floor of v/g. Below that it is the ceiling. |
| Geometry.Snap | src/com/uwsoft/editor/gdx/sandbox/SandboxInputAdapter.java:165-166 | The snapped value is a multiple of the grid size and less than one step from the value. It is at or below the value inside the fast floor's range and at or above it below the range. |
| Geometry.SnapIsFloorOrCeiling | src/com/uwsoft/editor/gdx/sandbox/SandboxInputAdapter.java:165-166 | Inside the fast floor's range, every multiple of g at or below v is at or below the snapped value, so snapping is the floor to the grid. Below the range, every multiple at or above v is at or above it, so snapping is the ceiling. |
| Geometry.SnapOfMultiple | src/com/uwsoft/editor/gdx/sandbox/SandboxInputAdapter.java:174-175 | A value already on the grid is left unchanged by snapping, both inside and outside the fast floor's range. |
| Geometry.SnapIdempotent | src/com/uwsoft/editor/gdx/sandbox/SandboxInputAdapter.java:174-175 | Snapping twice gives the same value as snapping once. |
| Geometry.DifferenceOfMultiples | src/com/uwsoft/editor/gdx/sandbox/SandboxInputAdapter.java:177-178 | The difference of two grid values is on the grid. |
| Geometry.SnapPoint | src/com/uwsoft/editor/gdx/sandbox/SandboxInputAdapter.java:165-166 | Both coordinates of a snapped point are on the grid and less than one step from the original: at or below it inside the fast floor's range, at or above it outside. |
| Geometry.SnapPointIdempotent | src/com/uwsoft/editor/gdx/sandbox/SandboxInputAdapter.java:174-175 | Snapping a point twice gives the same point as snapping once. |
| Geometry.ReducedDirection | src/com/uwsoft/editor/gdx/sandbox/SandboxInputAdapter.java:159-160 | The locked axis is a unit axis vector. It is horizontal exactly when abs(dx) >= abs(dy), so ties go horizontal. It is vertical exactly when abs(dx) < abs(dy). |
| Geometry.ReducedTarget | src/com/uwsoft/editor/gdx/sandbox/SandboxInputAdapter.java:162-163 | A horizontal lock follows the pointer's x and keeps the fix point's y. A vertical lock does the opposite. With no direction yet, the target is the fix point. |
| Geometry.ReducedMoveFollowsDominantAxis | src/com/uwsoft/editor/gdx/sandbox/SandboxInputAdapter.java:157-163 | A reduced move follows the pointer along the dominant axis of its own displacement and stays on the fix point's line along the other axis. |
| SandboxSession.Sandbox.SetSelection | src/com/uwsoft/editor/gdx/sandbox/SandboxInputAdapter.java:66-78 | With removeAll the selection becomes exactly {item}; otherwise item is added. Items that stay selected keep their rectangles. A newly selected item gets a fresh, visible rectangle. |
| SandboxSession.Sandbox.ClearSelections | src/com/uwsoft/editor/gdx/sandbox/SandboxInputAdapter.java:72-74 | The selection becomes empty. |
| SandboxSession.Sandbox.ReleaseSelection | src/com/uwsoft/editor/gdx/sandbox/SandboxInputAdapter.java:103-107 | Exactly the given item leaves the selection; every other item keeps its rectangle. |
| SandboxInputAdapter.IsShiftKey | src/com/uwsoft/editor/gdx/sandbox/SandboxInputAdapter.java:244-247 | The shift keys are left and right shift (libGDX codes 59 and 60). No contract of its own; IsShiftPressed states what it means. |
| SandboxInputAdapter.IsControlKey | src/com/uwsoft/editor/gdx/sandbox/SandboxInputAdapter.java:255-259 | The control keys are SYM, left control and right control (libGDX codes 63, 129 and 130). No contract of its own; IsControlPressed states what it means. |
| SandboxInputAdapter.IsShiftPressed | src/com/uwsoft/editor/gdx/sandbox/SandboxInputAdapter.java:249-252 | Shift counts as pressed if and only if some held key is a shift key in the sense of IsShiftKey. |
| SandboxInputAdapter.IsControlPressed | src/com/uwsoft/editor/gdx/sandbox/SandboxInputAdapter.java:238-242 | Control counts as pressed if and only if some held key is a control key in the sense of IsControlKey. |
| SandboxInputAdapter.PressSelection | src/com/uwsoft/editor/gdx/sandbox/SandboxInputAdapter.java:60-79 | With shift, the selection becomes the old one plus the item, even a locked item. Without shift, the prior selection is discarded: the result is at most the item, and contains it exactly when the item is not layer-locked. |
| SandboxInputAdapter.ReleaseSelection | src/com/uwsoft/editor/gdx/sandbox/SandboxInputAdapter.java:103-108 | A release never adds an item and removes at most the released one. A selected item is removed if and only if it was selected at press time, no drag happened and shift is held. |
| SandboxInputAdapter.ShiftClickToggles | src/com/uwsoft/editor/gdx/sandbox/SandboxInputAdapter.java:60-108 | A shift press and release without a drag toggle the item and leave every other item as it was. |
| SandboxInputAdapter.ShiftDragKeepsItem | src/com/uwsoft/editor/gdx/sandbox/SandboxInputAdapter.java:103-108 | A shift press followed by a drag never deselects. The result is the old selection plus the item. |
| SandboxInputAdapter.PlainClickSelectsOnlyItem | src/com/uwsoft/editor/gdx/sandbox/SandboxInputAdapter.java:70-108 | A plain press and release on an unlocked item leaves exactly that item selected. The exception: the item was already selected, nothing was dragged, and shift is held at release; then nothing is selected. |
| SandboxInputAdapter.PressRects | src/com/uwsoft/editor/gdx/sandbox/SandboxInputAdapter.java:86-89 | The press-time offsets are recorded for the selected items and no others. |
| SandboxInputAdapter.ShownRects | src/com/uwsoft/editor/gdx/sandbox/SandboxInputAdapter.java:124-127 | Showing the rectangles keeps the selected set. |
| SandboxInputAdapter.ReleaseEvents | src/com/uwsoft/editor/gdx/sandbox/SandboxInputAdapter.java:119-136 | A save is requested if and only if the scene was dirty. The property panel refresh always comes last. |
| SandboxInputAdapter.DragMoves | src/com/uwsoft/editor/gdx/sandbox/SandboxInputAdapter.java:150 | A drag sample moves the selection exactly when an item is touched, no resize is going on and the left button is held. No contract of its own; ItemTouchDragged states its outcome. |
| SandboxInputAdapter.NextDirection | src/com/uwsoft/editor/gdx/sandbox/SandboxInputAdapter.java:156-161 | The locked axis changes only on the first sample of a reduced drag, and it is then a unit axis. A grid drag and every later sample keep the previous axis. |
| SandboxInputAdapter.DragTarget | src/com/uwsoft/editor/gdx/sandbox/SandboxInputAdapter.java:156-167 | A grid target lies on the grid. A reduced target shares one coordinate with the fix point. |
| SandboxInputAdapter.DraggedItems | src/com/uwsoft/editor/gdx/sandbox/SandboxInputAdapter.java:171-178 | A drag sample neither adds nor removes scene items. |
| SandboxInputAdapter.DraggedRects | src/com/uwsoft/editor/gdx/sandbox/SandboxInputAdapter.java:171-180 | A drag sample keeps the selected set. |
| SandboxInputAdapter.GridDragKeepsSelectionOnGrid | src/com/uwsoft/editor/gdx/sandbox/SandboxInputAdapter.java:165-178 | After a grid drag, every selected item sits on a grid point and every unselected item is unchanged. |
| SandboxInputAdapter.GridDragFollowsPointer | src/com/uwsoft/editor/gdx/sandbox/SandboxInputAdapter.java:165-178 | A grid-dragged item lies within two grid steps, on each axis, of the pointer minus its press offset. It lies within one step on an axis where the pointer and the offset are on the same side of the fast floor's range. |
| SandboxInputAdapter.DragSampleIdempotent | src/com/uwsoft/editor/gdx/sandbox/SandboxInputAdapter.java:171-180 | Writing the snapped offsets back is harmless: a second sample at the same target changes neither items nor rectangles. |
| SandboxInputAdapter.ScrollDegrees | src/com/uwsoft/editor/gdx/sandbox/SandboxInputAdapter.java:196-201 | The rotation step has the sign of the scroll amount. Its size is 30 degrees with left shift held, otherwise 1. |
| SandboxInputAdapter.RotatedItems | src/com/uwsoft/editor/gdx/sandbox/SandboxInputAdapter.java:195-204 | Rotating the selection neither adds nor removes scene items. |
| SandboxInputAdapter.ScrollBackRestores | src/com/uwsoft/editor/gdx/sandbox/SandboxInputAdapter.java:194-205 | A scroll in the opposite direction with the same modifier undoes a rotation. |
| SandboxInputAdapter.InputAdapter.constructor | src/com/uwsoft/editor/gdx/sandbox/SandboxInputAdapter.java:42-51 | A new adapter is bound to its session with a zero drag start, no locked axis, not dragging, and no item pressed. |
| SandboxInputAdapter.InputAdapter.RecordTouchDiffs | src/com/uwsoft/editor/gdx/sandbox/SandboxInputAdapter.java:86-89 | The loop over the selection leaves each rectangle holding the pointer's offset from its item, the rest unchanged. |
| SandboxInputAdapter.InputAdapter.ShowSelection | src/com/uwsoft/editor/gdx/sandbox/SandboxInputAdapter.java:124-127 | The loop shows every selected rectangle and changes nothing else. |
| SandboxInputAdapter.InputAdapter.MoveSelection | src/com/uwsoft/editor/gdx/sandbox/SandboxInputAdapter.java:170-180 | The loop moves every selected item to the target minus its snapped offset, writes the snapped offset back, hides the rectangle, and leaves unselected items alone. |
| SandboxInputAdapter.InputAdapter.RotateSelection | src/com/uwsoft/editor/gdx/sandbox/SandboxInputAdapter.java:195-204 | The loop rotates exactly the selected items by the step. |
| SandboxInputAdapter.InputAdapter.ItemTouchDown | src/com/uwsoft/editor/gdx/sandbox/SandboxInputAdapter.java:56-98 | Records whether the item was selected before the press; the new selected set is the press rule's result, with rectangle visibility unchanged and a newly selected item's rectangle visible. When panning it stops there and returns false, and a newly selected item keeps its fresh rectangle. Otherwise every selected rectangle holds the pointer's offset from its item, the item is marked touched and a panel refresh is logged. |
| SandboxInputAdapter.InputAdapter.ItemTouchUp | src/com/uwsoft/editor/gdx/sandbox/SandboxInputAdapter.java:100-137 | The selected set follows the release rule and the selected items are always flushed. When panning it stops there. Otherwise it logs the menu on a right click, shows every remaining rectangle, logs a save exactly when the scene was dirty, clears the touched and dirty flags and logs a refresh. |
| SandboxInputAdapter.InputAdapter.FinishRelease | src/com/uwsoft/editor/gdx/sandbox/SandboxInputAdapter.java:119-136 | With no pan going on, a release logs the menu on a right click, shows every selected rectangle, logs a save exactly when the scene was dirty, clears the touched and dirty flags and logs a refresh last. |
| SandboxInputAdapter.InputAdapter.ItemDoubleClick | src/com/uwsoft/editor/gdx/sandbox/SandboxInputAdapter.java:139-143 | In order: enter the composite, record the composite step as pending history, apply it. |
| SandboxInputAdapter.InputAdapter.ItemTouchDragged | src/com/uwsoft/editor/gdx/sandbox/SandboxInputAdapter.java:145-186 | A sample moves things only while an item is touched, no resize is going on and the left button is held. Such a sample marks the scene dirty, updates the locked axis, and applies the dragged items and rectangles at the drag target. Otherwise nothing changes. A refresh is always logged. |
| SandboxInputAdapter.InputAdapter.SandboxMouseScrolled | src/com/uwsoft/editor/gdx/sandbox/SandboxInputAdapter.java:188-211 | A zero amount does nothing. With an item touched, the selected items rotate by the scroll step and the scene is marked dirty. Otherwise a zoom is logged exactly when left alt is held. The event is never reported as handled. |
| SandboxInputAdapter.InputAdapter.SandboxTouchUp | src/com/uwsoft/editor/gdx/sandbox/SandboxInputAdapter.java:214-235 | A right click clears the selection and logs the menu; a menu that was shown ends the handler. Otherwise an active pan continues only while space is held. Without a pan, the rubber-band selection is completed. |
| SandboxInputAdapter.InputAdapter.TouchDown | src/com/uwsoft/editor/gdx/sandbox/SandboxInputAdapter.java:265-270 | The press position becomes the drag start, then the press is handled with the same outcome: the press rule's selected set, unchanged visibility and a visible rectangle for a newly selected item. When panning, a newly selected item keeps its fresh rectangle, and kept rectangles, the touched flag and the log are unchanged and no drag is prepared. Otherwise every selected rectangle holds the pointer's offset, the item is touched and a refresh is logged. |
| SandboxInputAdapter.InputAdapter.TouchUp | src/com/uwsoft/editor/gdx/sandbox/SandboxInputAdapter.java:272-282 | The release is handled with the same outcome: the release rule's selected set and the flush. When panning, the rectangles, touched and dirty flags are unchanged. Otherwise the remaining rectangles are shown with their offsets kept, the flags are cleared, and the menu, save and refresh are logged as for a release. The double-click steps follow when the tap count is 2, and the gesture ends with isDragging off. |
| SandboxInputAdapter.InputAdapter.TouchDragged | src/com/uwsoft/editor/gdx/sandbox/SandboxInputAdapter.java:284-289 | The first sample of a gesture is the one that finds isDragging off. The drag start is the fix point only when reduced moves are enabled. Later samples never change the locked axis. |
| SandboxInputAdapter.ShiftClickDeselects | src/com/uwsoft/editor/gdx/sandbox/SandboxInputAdapter.java:262-282 | Through the listener, a shift press and release on a selected item without a drag removes exactly that item. |
| SandboxInputAdapter.PressDragRelease | src/com/uwsoft/editor/gdx/sandbox/SandboxInputAdapter.java:262-289 | A press on an unselected, unlocked item, one grid drag and a release through the listener leave that item alone selected, at the snapped drop point minus its snapped press offset, with its rectangle visible. The events logged during this gesture include a save, the scene is clean, and nothing is touched or dragging. |
| ItemsTreeBoxMediator.NotificationInterests | src/com/uwsoft/editor/mvc/view/ui/box/UIItemsTreeBoxMediator.java:49-55 | The interests are the parent's, in order, followed by scene loaded, new item added and items selected. |
| ItemsTreeBoxMediator.InterestsCoverHandledNames | src/com/uwsoft/editor/mvc/view/ui/box/UIItemsTreeBoxMediator.java:49-55 | A name is subscribed to if and only if the parent subscribes to it or it is one of the three handled names. |
| ItemsTreeBoxMediator.AddSelectionAction | src/com/uwsoft/editor/mvc/view/ui/box/UIItemsTreeBoxMediator.java:86-90 | The message announcing that one entity alone is selected. No contract of its own; SelectionMessages and AllResolvedSelectsEachNode state what it sends. |
| ItemsTreeBoxMediator.SelectionMessages | src/com/uwsoft/editor/mvc/view/ui/box/UIItemsTreeBoxMediator.java:71-80 | There is at most one message per node, and each selects exactly one entity. |
| ItemsTreeBoxMediator.SelectionMessagesAppend | src/com/uwsoft/editor/mvc/view/ui/box/UIItemsTreeBoxMediator.java:73-80 | Messages follow node order: the messages for a + b are those for a followed by those for b. |
| ItemsTreeBoxMediator.StaleNodeIsSkipped | src/com/uwsoft/editor/mvc/view/ui/box/UIItemsTreeBoxMediator.java:75-79 | A node whose id does not resolve contributes nothing, wherever it stands. |
| ItemsTreeBoxMediator.AllResolvedSelectsEachNode | src/com/uwsoft/editor/mvc/view/ui/box/UIItemsTreeBoxMediator.java:74-80 | When every id resolves, there is one message per node and the i-th selects the i-th node's entity. |
| ItemsTreeBoxMediator.NoneResolvedSendsNothing | src/com/uwsoft/editor/mvc/view/ui/box/UIItemsTreeBoxMediator.java:74-80 | When no id resolves, including an empty tree selection, no message is sent. |
| ItemsTreeBoxMediator.MessagesMatchResolvingNodes | src/com/uwsoft/editor/mvc/view/ui/box/UIItemsTreeBoxMediator.java:74-80 | Every message selects the entity of some resolving node, and every resolving node's entity is selected by a message. |
| ItemsTreeBoxMediator.OwnEffects | src/com/uwsoft/editor/mvc/view/ui/box/UIItemsTreeBoxMediator.java:62-83 | The mediator's own effects never repeat the parent's handling. For a tree selection they are at most one singleton set-selection message per node. For any other name they are at most one tree rebuild from the scene root. |
| ItemsTreeBoxMediator.LoadAndAddRebuildAlike | src/com/uwsoft/editor/mvc/view/ui/box/UIItemsTreeBoxMediator.java:63-70 | Scene loaded and new item added have the same effect: rebuilding the tree from the scene root. |
| ItemsTreeBoxMediator.OtherNamesHaveNoOwnEffect | src/com/uwsoft/editor/mvc/view/ui/box/UIItemsTreeBoxMediator.java:62-83 | Any other notification name has no effect beyond the parent's handling. |
| ItemsTreeBoxMediator.HandleNotification | src/com/uwsoft/editor/mvc/view/ui/box/UIItemsTreeBoxMediator.java:58-84 | The parent's handling comes first, then the effect for the name. The loop over the selected nodes produces exactly the recursive selection messages. |

## Left out

- **Polled input.** The toolkit's polled input (`Gdx.input`) is a snapshot parameter `InputState` of held keys and buttons, and the listener's tap counting is a `tapCount` parameter. The timing that decides a double click is not modelled.
- **Float coordinates.** Coordinates, offsets and scroll amounts are integers, not floats. The quotient v / g inside `MathUtils.floor` is exact here, and the fast floor's bias and truncating cast are modelled. Not modelled: fractional coordinates and scroll amounts, float rounding of the quotient, and overflow of the int cast.
- **Grid size.** The grid size is assumed positive, an invariant of the session. With a zero grid size the original throws nothing: `/ gridSize` is a float division, giving an infinity or NaN, and `MathUtils.floor(…) * gridSize` is then 0. A grid drag would then set every offset to 0 and move every selected item to (0, 0). The model does not cover that case.
- **Selector.** Selector internals (`setSelection`, `clearSelections`, `releaseSelection`, `flushAllSelectedItems`) are not part of this model. The first three are modelled from what the adapter's comments say they do. Flushing is only logged.
- **Selection rectangles.** A rectangle's `update()` after a rotation and its rendering are not modelled. A rectangle is only its press offset and its visibility.
- **Offset write-back.** `SelectionRectangle` is not part of this model. The drag handler snaps the array that `getTouchDiff()` returns. The model assumes that array is the rectangle's own, so the snapped offset stays in the rectangle (`DraggedRects`). If it were a copy, the offsets would stay unsnapped between samples. Item positions would be unaffected, since every sample snaps the offset again.
- **Session side effects.** These are only logged as events: saving the scene, the drop-down menus, zoom, entering a composite, the history flow, rubber-band completion and the property-panel refresh. Whether a right click on empty space consumed the event is a parameter (`dropDownShown`).
- **`item.updateDataVO()`** on press is not part of this model. It is assumed not to change anything the handlers read.
- **Iteration order.** Hash-map iteration order over the selection is not modelled. Every loop updates each selected item independently, so the outcome does not depend on it.
- **`reducedMouseMoveEnabled`** is a constructor argument of the adapter. The original declares it false and never sets it.
- **Listener base classes.** The base `ClickListener` handling and attaching the listener to the actor are not modelled.
- **Unused parameters.** These are dropped because the handlers never read them: the local `x` and `y` of the press, release and drag handlers; the `button` of the press handler; the `item` of the drag handler; the item, event, `x`, `y` and `button` of the double-click handler; the `x` and `y` of the scroll handler; the `event` of the empty-space release handler; and the listener's pointer index. The press, release and drag handlers read the pointer's stage position from their event, which is the `stage` argument. The release handler's `button` is kept. `SandboxTouchUp` takes the menu position as its `at` argument.
- **Notification names.** The string values of the notification names are not part of this model. Names are a datatype. Equal strings for two of the three handled names are not modelled.
- **PureMVC plumbing.** The parent mediator's `handleNotification` and `listNotificationInterests` are inputs: an effect and a parameter. Building the tree widget (`UIItemsTreeBox.init`) is only the `InitTree(root)` effect. Message delivery is the returned effect sequence.
- **Entity lookup.** Looking up an entity by unique id is a map from ids to entities. A tree node whose object is not an integer id, a failing cast in the original, is not modelled.
- **Tree selection body.** The selection body is given as the sequence of node ids in the order the tree returns them.
