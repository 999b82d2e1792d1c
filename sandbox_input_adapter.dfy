/**
 * The editor's gesture state machine for scene items: a press decides how
 * the selection changes, drag samples move every selected item (snapped
 * to the grid, or locked to one axis), a release completes a shift-click
 * toggle and saves a dirty scene, the scroll wheel rotates the selection,
 * and a release over empty space clears the selection, ends panning or
 * completes a rubber-band selection.
 *
 * The specification functions come first; the class `InputAdapter` holds
 * the state the listener keeps between callbacks and is proved against them.
 */
module SandboxInputAdapter {
  import opened Geometry
  import opened GdxInput
  import opened SandboxSession

  datatype Option<T> = None | Some(value: T)

  // ---------------------------------------------------------------------
  // Modifier keys
  // ---------------------------------------------------------------------

  /** The left and right shift keys. */
  predicate IsShiftKey(keycode: int) {
    keycode == SHIFT_LEFT || keycode == SHIFT_RIGHT
  }

  /** The keys that count as control: SYM (the command key) and the left and right control keys. */
  predicate IsControlKey(keycode: int) {
    keycode == SYM || keycode == CONTROL_LEFT || keycode == CONTROL_RIGHT
  }

  /** Shift counts as pressed exactly when some held key is a shift key. */
  predicate IsShiftPressed(input: InputState)
    ensures IsShiftPressed(input) <==> exists k :: input.IsKeyPressed(k) && IsShiftKey(k)
  {
    input.IsKeyPressed(SHIFT_LEFT) || input.IsKeyPressed(SHIFT_RIGHT)
  }

  /** Control counts as pressed exactly when some held key is a control key. */
  predicate IsControlPressed(input: InputState)
    ensures IsControlPressed(input) <==> exists k :: input.IsKeyPressed(k) && IsControlKey(k)
  {
    input.IsKeyPressed(SYM) || input.IsKeyPressed(CONTROL_LEFT) || input.IsKeyPressed(CONTROL_RIGHT)
  }

  // ---------------------------------------------------------------------
  // Selection on press and release
  // ---------------------------------------------------------------------

  /**
   * The selected set after a press on `item`. With shift the item is
   * added (or the selection left alone if it is already in it); without
   * shift a layer-locked item counts as a click on empty space and clears
   * the selection, any other item becomes the only selected one.
   */
  function PressSelection(selected: set<ItemId>, item: ItemId, shift: bool, locked: bool): (r: set<ItemId>)
    ensures shift ==> r == selected + {item}
    ensures !shift ==> r <= {item} && (item in r <==> !locked)
  {
    if shift then
      if item in selected then selected else selected + {item}
    else if locked then {}
    else {item}
  }

  /**
   * The selected set after a release on `item`: the item is deselected
   * when it was already selected at press time, no drag happened and shift
   * is held at release.
   */
  function ReleaseSelection(selected: set<ItemId>, item: ItemId, wasSelected: bool, dragged: bool, shift: bool): (r: set<ItemId>)
    ensures r <= selected && selected - r <= {item}
    ensures item in selected ==> (item !in r <==> wasSelected && !dragged && shift)
  {
    if wasSelected && !dragged && shift then selected - {item} else selected
  }

  /**
   * A shift-click without a drag toggles the clicked item: a selected
   * item is deselected, an unselected one is added, and no other item
   * changes. The removal happens only at release.
   */
  lemma ShiftClickToggles(selected: set<ItemId>, item: ItemId, locked: bool)
    ensures var pressed := PressSelection(selected, item, true, locked);
      && item in pressed
      && var released := ReleaseSelection(pressed, item, item in selected, false, true);
      && (item in released <==> item !in selected)
      && released - {item} == selected - {item}
  {
  }

  /** A shift-press followed by a drag never deselects: the item ends up added. */
  lemma ShiftDragKeepsItem(selected: set<ItemId>, item: ItemId, locked: bool, shiftAtRelease: bool)
    ensures ReleaseSelection(PressSelection(selected, item, true, locked), item, item in selected, true, shiftAtRelease)
      == selected + {item}
  {
  }

  /**
   * A press without shift on an unlocked item followed by a release leaves
   * exactly that item selected, unless the item was already selected,
   * nothing was dragged and shift is held at release: then nothing is.
   */
  lemma PlainClickSelectsOnlyItem(selected: set<ItemId>, item: ItemId, dragged: bool, shiftAtRelease: bool)
    ensures ReleaseSelection(PressSelection(selected, item, false, false), item, item in selected, dragged, shiftAtRelease)
      == if item in selected && !dragged && shiftAtRelease then {} else {item}
  {
  }

  /** The rectangles after a press that prepares a drag: each records the pointer's offset from its item. */
  function PressRects(selection: map<ItemId, SelectionRect>, stage: Point, items: map<ItemId, Item>): (r: map<ItemId, SelectionRect>)
    requires selection.Keys <= items.Keys
    ensures r.Keys == selection.Keys
  {
    map id | id in selection :: selection[id].(touchDiff := stage.Minus(items[id].position))
  }

  /** The rectangles after a completed release: all shown again. */
  function ShownRects(selection: map<ItemId, SelectionRect>): (r: map<ItemId, SelectionRect>)
    ensures r.Keys == selection.Keys
  {
    map id | id in selection :: selection[id].(visible := true)
  }

  /** What a release asks of the session once panning is known to be off. */
  function ReleaseEvents(button: int, at: Point, wasDirty: bool): (r: seq<Event>)
    ensures SaveSceneCurrentSceneData in r <==> wasDirty
    ensures |r| > 0 && r[|r| - 1] == UpdateCurrentItemState
  {
    (if button == BUTTON_RIGHT then [ShowDropDown(at)] else [])
    + (if wasDirty then [SaveSceneCurrentSceneData] else [])
    + [UpdateCurrentItemState]
  }

  const DOUBLE_CLICK_EVENTS: seq<Event> := [EnterIntoComposite, SetPendingHistory(GetIntoComposite), ApplyPendingAction]

  // ---------------------------------------------------------------------
  // Dragging
  // ---------------------------------------------------------------------

  /** A drag sample moves the selection only while an item is touched, no resize is going on and the left button is held. */
  predicate DragMoves(isItemTouched: bool, isResizing: bool, input: InputState) {
    isItemTouched && !isResizing && input.IsButtonPressed(BUTTON_LEFT)
  }

  /** The locked axis after a moving drag sample: chosen on the first sample of a reduced drag, kept otherwise. */
  function NextDirection(previous: Point, stage: Point, fixPoint: Option<Point>, isFirstDragCall: bool): (d: Point)
    ensures !isFirstDragCall || fixPoint.None? ==> d == previous
    ensures fixPoint.Some? && isFirstDragCall ==> IsAxis(d)
  {
    if fixPoint.Some? && isFirstDragCall then ReducedDirection(stage.Minus(fixPoint.value)) else previous
  }

  /** The point a drag sample aims for: the axis-locked pointer position, or the pointer snapped to the grid. */
  function DragTarget(stage: Point, fixPoint: Option<Point>, direction: Point, g: int): (r: Point)
    requires g > 0
    ensures fixPoint.None? ==> r.x % g == 0 && r.y % g == 0
    ensures fixPoint.Some? && IsAxis(direction) ==> r.x == fixPoint.value.x || r.y == fixPoint.value.y
  {
    match fixPoint
    case Some(fix) => ReducedTarget(fix, stage, direction)
    case None => SnapPoint(stage, g)
  }

  /** Items after a moving drag sample: each selected item sits at the target minus its grid-snapped press offset. */
  function DraggedItems(items: map<ItemId, Item>, selection: map<ItemId, SelectionRect>, target: Point, g: int): (r: map<ItemId, Item>)
    requires g > 0
    ensures r.Keys == items.Keys
  {
    map id | id in items ::
      if id in selection then items[id].(position := target.Minus(SnapPoint(selection[id].touchDiff, g)))
      else items[id]
  }

  /** Rectangles after a moving drag sample: offsets snapped to the grid in place, rectangles hidden. */
  function DraggedRects(selection: map<ItemId, SelectionRect>, g: int): (r: map<ItemId, SelectionRect>)
    requires g > 0
    ensures r.Keys == selection.Keys
  {
    map id | id in selection :: SelectionRect(SnapPoint(selection[id].touchDiff, g), false)
  }

  /** A grid drag leaves every selected item on a grid point; the other items do not move. */
  lemma {:induction false} GridDragKeepsSelectionOnGrid(items: map<ItemId, Item>, selection: map<ItemId, SelectionRect>, stage: Point, g: int, id: ItemId)
    requires g > 0 && id in items
    ensures var p := DraggedItems(items, selection, SnapPoint(stage, g), g)[id];
      if id in selection then p.position.x % g == 0 && p.position.y % g == 0 else p == items[id]
  {
    if id in selection {
      var target, diff := SnapPoint(stage, g), SnapPoint(selection[id].touchDiff, g);
      DifferenceOfMultiples(target.x, diff.x, g);
      DifferenceOfMultiples(target.y, diff.y, g);
    }
  }

  /**
   * A grid drag puts each selected item near where it would be if it
   * followed the pointer exactly from its press offset: within one grid
   * step on an axis where the pointer and the offset are on the same side
   * of the fast floor's range, and within two steps in any case.
   */
  lemma GridDragFollowsPointer(items: map<ItemId, Item>, selection: map<ItemId, SelectionRect>, stage: Point, g: int, id: ItemId)
    requires g > 0 && id in items && id in selection
    ensures var p := DraggedItems(items, selection, DragTarget(stage, None, Origin, g), g)[id].position;
      var d := selection[id].touchDiff;
      var exact := stage.Minus(d);
      && exact.x - 2 * g < p.x < exact.x + 2 * g
      && exact.y - 2 * g < p.y < exact.y + 2 * g
      && (InFloorRange(stage.x, g) == InFloorRange(d.x, g) ==> exact.x - g < p.x < exact.x + g)
      && (InFloorRange(stage.y, g) == InFloorRange(d.y, g) ==> exact.y - g < p.y < exact.y + g)
  {
  }

  /**
   * Repeating a drag sample at the same target changes nothing more: the
   * offsets written back are already on the grid.
   */
  lemma {:induction false} DragSampleIdempotent(items: map<ItemId, Item>, selection: map<ItemId, SelectionRect>, target: Point, g: int)
    requires g > 0
    ensures DraggedRects(DraggedRects(selection, g), g) == DraggedRects(selection, g)
    ensures DraggedItems(DraggedItems(items, selection, target, g), DraggedRects(selection, g), target, g)
      == DraggedItems(items, selection, target, g)
  {
    var once := DraggedRects(selection, g);
    forall id | id in selection
      ensures SnapPoint(once[id].touchDiff, g) == once[id].touchDiff
    {
      SnapPointIdempotent(selection[id].touchDiff, g);
    }
    assert DraggedRects(once, g) == once;
    var moved := DraggedItems(items, selection, target, g);
    assert DraggedItems(moved, once, target, g) == moved;
  }

  // ---------------------------------------------------------------------
  // Scrolling
  // ---------------------------------------------------------------------

  /** The rotation step of one scroll: the sign of the scroll amount, times 30 with left shift. */
  function ScrollDegrees(amount: int, leftShift: bool): (r: int)
    requires amount != 0
    ensures r > 0 <==> amount > 0
    ensures Abs(r) == if leftShift then 30 else 1
  {
    var unit := if amount < 0 then -1 else 1;
    if leftShift then unit * 30 else unit
  }

  /** Items after each of `selected` is rotated by `degrees`; the others keep their rotation. */
  function RotatedItems(items: map<ItemId, Item>, selected: set<ItemId>, degrees: int): (r: map<ItemId, Item>)
    ensures r.Keys == items.Keys
  {
    map id | id in items :: if id in selected then items[id].(rotation := items[id].rotation + degrees) else items[id]
  }

  /** Scrolling back by the same amount with the same modifier undoes a rotation. */
  lemma {:induction false} ScrollBackRestores(items: map<ItemId, Item>, selected: set<ItemId>, amount: int, leftShift: bool)
    requires amount != 0
    ensures RotatedItems(RotatedItems(items, selected, ScrollDegrees(amount, leftShift)), selected, ScrollDegrees(-amount, leftShift))
      == items
  {
    var there := RotatedItems(items, selected, ScrollDegrees(amount, leftShift));
    var back := RotatedItems(there, selected, ScrollDegrees(-amount, leftShift));
    assert ScrollDegrees(-amount, leftShift) == -ScrollDegrees(amount, leftShift);
    forall id | id in items ensures back[id] == items[id] {
    }
  }

  /** Two maps with the same keys that agree on every key are equal. */
  lemma MapsAgree<K, V>(m: map<K, V>, n: map<K, V>)
    requires m.Keys == n.Keys
    requires forall k :: k in m ==> m[k] == n[k]
    ensures m == n
  {
  }

  // ---------------------------------------------------------------------
  // The listener state
  // ---------------------------------------------------------------------

  class InputAdapter {
    const sandbox: Sandbox
    /** Fixed at construction; no code in the editor enables it. */
    const reducedMouseMoveEnabled: bool
    var dragStartPosition: Point
    var reducedMoveDirection: Point
    var isDragging: bool
    var currentTouchedItemWasSelected: bool

    ghost predicate Valid()
      reads this, sandbox
    {
      sandbox.Valid() && (reducedMoveDirection == Origin || IsAxis(reducedMoveDirection))
    }

    constructor (sandbox: Sandbox, reducedMouseMoveEnabled: bool)
      requires sandbox.Valid()
      ensures Valid()
      ensures this.sandbox == sandbox && this.reducedMouseMoveEnabled == reducedMouseMoveEnabled
      ensures dragStartPosition == Origin && reducedMoveDirection == Origin
      ensures !isDragging && !currentTouchedItemWasSelected
    {
      this.sandbox := sandbox;
      this.reducedMouseMoveEnabled := reducedMouseMoveEnabled;
      dragStartPosition := Origin;
      reducedMoveDirection := Origin;
      isDragging := false;
      currentTouchedItemWasSelected := false;
    }

    // Each loop over the current selection gets its own method, so that a
    // loop's frame is the one field it updates.

    /** Records, for every selected item, the pointer's offset from the item's origin. */
    method RecordTouchDiffs(stage: Point)
      requires sandbox.Valid()
      modifies sandbox`selection
      ensures sandbox.Valid()
      ensures sandbox.selection == PressRects(old(sandbox.selection), stage, sandbox.items)
    {
      ghost var chosen := sandbox.selection;
      var pending := sandbox.selection.Keys;
      var exhausted := false;
      while !exhausted
        invariant exhausted ==> forall k :: k !in pending
        invariant pending <= chosen.Keys && sandbox.selection.Keys == chosen.Keys
        invariant forall id :: id in chosen ==>
          sandbox.selection[id] == if id in pending then chosen[id] else PressRects(chosen, stage, sandbox.items)[id]
        decreases |pending| + if exhausted then 0 else 1
      {
        if id :| id in pending {
          var rect := sandbox.selection[id];
          sandbox.selection := sandbox.selection[id := rect.(touchDiff := stage.Minus(sandbox.items[id].position))];
          pending := pending - {id};
        } else {
          assert forall k :: k !in pending;
          exhausted := true;
        }
      }
      assert forall id :: id in chosen ==> sandbox.selection[id] == PressRects(chosen, stage, sandbox.items)[id];
      MapsAgree(sandbox.selection, PressRects(chosen, stage, sandbox.items));
    }

    /** Shows every selection rectangle again. */
    method ShowSelection()
      requires sandbox.Valid()
      modifies sandbox`selection
      ensures sandbox.Valid()
      ensures sandbox.selection == ShownRects(old(sandbox.selection))
    {
      ghost var shown := sandbox.selection;
      var pending := sandbox.selection.Keys;
      var exhausted := false;
      while !exhausted
        invariant exhausted ==> forall k :: k !in pending
        invariant pending <= shown.Keys && sandbox.selection.Keys == shown.Keys
        invariant forall id :: id in shown ==>
          sandbox.selection[id] == if id in pending then shown[id] else ShownRects(shown)[id]
        decreases |pending| + if exhausted then 0 else 1
      {
        if id :| id in pending {
          sandbox.selection := sandbox.selection[id := sandbox.selection[id].(visible := true)];
          pending := pending - {id};
        } else {
          assert forall k :: k !in pending;
          exhausted := true;
        }
      }
      assert forall id :: id in shown ==> sandbox.selection[id] == ShownRects(shown)[id];
      MapsAgree(sandbox.selection, ShownRects(shown));
    }

    /** Moves every selected item to `target` minus its snapped offset, writing the snapped offset back and hiding its rectangle. */
    method MoveSelection(target: Point)
      requires sandbox.Valid()
      modifies sandbox`items, sandbox`selection
      ensures sandbox.Valid()
      ensures sandbox.items == DraggedItems(old(sandbox.items), old(sandbox.selection), target, sandbox.gridSize)
      ensures sandbox.selection == DraggedRects(old(sandbox.selection), sandbox.gridSize)
    {
      var g := sandbox.gridSize;
      ghost var items0, rects0 := sandbox.items, sandbox.selection;
      var pending := sandbox.selection.Keys;
      var exhausted := false;
      while !exhausted
        invariant exhausted ==> forall k :: k !in pending
        invariant pending <= rects0.Keys
        invariant sandbox.selection.Keys == rects0.Keys && sandbox.items.Keys == items0.Keys
        invariant forall id :: id in rects0 ==>
          sandbox.selection[id] == if id in pending then rects0[id] else DraggedRects(rects0, g)[id]
        invariant forall id :: id in items0 ==>
          sandbox.items[id] == if id in pending then items0[id] else DraggedItems(items0, rects0, target, g)[id]
        decreases |pending| + if exhausted then 0 else 1
      {
        if id :| id in pending {
          var diff := SnapPoint(sandbox.selection[id].touchDiff, g);
          sandbox.selection := sandbox.selection[id := SelectionRect(diff, false)];
          sandbox.items := sandbox.items[id := sandbox.items[id].(position := target.Minus(diff))];
          pending := pending - {id};
        } else {
          assert forall k :: k !in pending;
          exhausted := true;
        }
      }
      assert forall id :: id in rects0 ==> sandbox.selection[id] == DraggedRects(rects0, g)[id];
      MapsAgree(sandbox.selection, DraggedRects(rects0, g));
      assert forall id :: id in items0 ==> sandbox.items[id] == DraggedItems(items0, rects0, target, g)[id];
      MapsAgree(sandbox.items, DraggedItems(items0, rects0, target, g));
    }

    /** Rotates every selected item by `degrees` around its origin. */
    method RotateSelection(degrees: int)
      requires sandbox.Valid()
      modifies sandbox`items
      ensures sandbox.Valid()
      ensures sandbox.items == RotatedItems(old(sandbox.items), sandbox.Selected(), degrees)
    {
      ghost var items0, selected := sandbox.items, sandbox.Selected();
      var pending := sandbox.selection.Keys;
      var exhausted := false;
      while !exhausted
        invariant exhausted ==> forall k :: k !in pending
        invariant pending <= selected && sandbox.items.Keys == items0.Keys
        invariant forall id :: id in items0 ==>
          sandbox.items[id] == if id in pending then items0[id] else RotatedItems(items0, selected, degrees)[id]
        decreases |pending| + if exhausted then 0 else 1
      {
        if id :| id in pending {
          sandbox.items := sandbox.items[id := sandbox.items[id].(rotation := sandbox.items[id].rotation + degrees)];
          pending := pending - {id};
        } else {
          assert forall k :: k !in pending;
          exhausted := true;
        }
      }
      assert forall id :: id in items0 ==> sandbox.items[id] == RotatedItems(items0, selected, degrees)[id];
      MapsAgree(sandbox.items, RotatedItems(items0, selected, degrees));
    }

    /**
     * A press on `item`: update the selection, and unless the camera is
     * panning, record every selected item's offset from the pointer and
     * mark the item touched. Returns whether a drag was prepared.
     */
    method ItemTouchDown(item: ItemId, stage: Point, input: InputState) returns (dragPrepared: bool)
      requires Valid() && item in sandbox.items
      modifies this`currentTouchedItemWasSelected, sandbox`selection, sandbox`isItemTouched, sandbox`events
      ensures Valid()
      ensures currentTouchedItemWasSelected == (item in old(sandbox.selection))
      ensures sandbox.Selected()
        == PressSelection(old(sandbox.Selected()), item, IsShiftPressed(input), sandbox.items[item].lockedByLayer)
      ensures forall id :: id in sandbox.selection && id in old(sandbox.selection) ==>
        sandbox.selection[id].visible == old(sandbox.selection)[id].visible
      ensures item !in old(sandbox.selection) && item in sandbox.selection ==> sandbox.selection[item].visible
      ensures sandbox.cameraPanOn && item !in old(sandbox.selection) && item in sandbox.selection ==>
        sandbox.selection[item] == NEW_RECT
      ensures dragPrepared == !sandbox.cameraPanOn
      ensures sandbox.cameraPanOn ==>
        && sandbox.isItemTouched == old(sandbox.isItemTouched)
        && sandbox.events == old(sandbox.events)
        && forall id :: id in sandbox.selection && id in old(sandbox.selection) ==> sandbox.selection[id] == old(sandbox.selection)[id]
      ensures !sandbox.cameraPanOn ==>
        && sandbox.isItemTouched
        && sandbox.events == old(sandbox.events) + [UpdateCurrentItemState]
        && forall id :: id in sandbox.selection ==> sandbox.selection[id].touchDiff == stage.Minus(sandbox.items[id].position)
    {
      currentTouchedItemWasSelected := item in sandbox.selection;
      if IsShiftPressed(input) {
        if !currentTouchedItemWasSelected {
          sandbox.SetSelection(item, false);
        }
      } else if sandbox.items[item].lockedByLayer {
        sandbox.ClearSelections();
      } else {
        sandbox.SetSelection(item, true);
      }

      if sandbox.cameraPanOn {
        return false;
      }

      RecordTouchDiffs(stage);
      sandbox.isItemTouched := true;
      sandbox.events := sandbox.events + [UpdateCurrentItemState];
      dragPrepared := true;
    }

    /**
     * A release on `item`: finish a shift-click toggle, flush the selected
     * items, and unless panning, show the context menu on a right click,
     * show the rectangles again, save a dirty scene and clear the flags.
     */
    method ItemTouchUp(item: ItemId, stage: Point, button: int, input: InputState)
      requires Valid()
      modifies sandbox`selection, sandbox`isItemTouched, sandbox`dirty, sandbox`events
      ensures Valid()
      ensures sandbox.Selected() == ReleaseSelection(old(sandbox.Selected()), item,
        currentTouchedItemWasSelected, isDragging, IsShiftPressed(input))
      ensures sandbox.cameraPanOn ==>
        && sandbox.isItemTouched == old(sandbox.isItemTouched) && sandbox.dirty == old(sandbox.dirty)
        && sandbox.events == old(sandbox.events) + [FlushAllSelectedItems]
        && forall id :: id in sandbox.selection ==> sandbox.selection[id] == old(sandbox.selection)[id]
      ensures !sandbox.cameraPanOn ==>
        && !sandbox.isItemTouched && !sandbox.dirty
        && sandbox.events == old(sandbox.events) + [FlushAllSelectedItems] + ReleaseEvents(button, stage, old(sandbox.dirty))
        && sandbox.selection == ShownRects(old(sandbox.selection) - (old(sandbox.Selected()) - sandbox.Selected()))
    {
      if currentTouchedItemWasSelected && !isDragging {
        if IsShiftPressed(input) {
          sandbox.ReleaseSelection(item);
        }
      }

      sandbox.events := sandbox.events + [FlushAllSelectedItems];

      if sandbox.cameraPanOn {
        return;
      }

      assert sandbox.selection == old(sandbox.selection) - (old(sandbox.Selected()) - sandbox.Selected());
      FinishRelease(button, stage);
    }

    /**
     * The part of a release that runs when no pan is going on: the context
     * menu on a right click, the rectangles shown again, a save when the
     * scene is dirty, the gesture flags cleared, and a panel refresh.
     */
    method FinishRelease(button: int, stage: Point)
      requires sandbox.Valid()
      modifies sandbox`selection, sandbox`isItemTouched, sandbox`dirty, sandbox`events
      ensures sandbox.Valid()
      ensures !sandbox.isItemTouched && !sandbox.dirty
      ensures sandbox.events == old(sandbox.events) + ReleaseEvents(button, stage, old(sandbox.dirty))
      ensures sandbox.selection == ShownRects(old(sandbox.selection))
    {
      if button == BUTTON_RIGHT {
        sandbox.events := sandbox.events + [ShowDropDown(stage)];
      }
      ShowSelection();
      if sandbox.dirty {
        sandbox.events := sandbox.events + [SaveSceneCurrentSceneData];
      }
      sandbox.isItemTouched := false;
      sandbox.dirty := false;
      sandbox.events := sandbox.events + [UpdateCurrentItemState];
    }

    /** A double click enters the item as a composite and records that as a history step. */
    method ItemDoubleClick()
      modifies sandbox`events
      ensures sandbox.events == old(sandbox.events) + DOUBLE_CLICK_EVENTS
    {
      sandbox.events := sandbox.events + [EnterIntoComposite];
      sandbox.events := sandbox.events + [SetPendingHistory(GetIntoComposite)];
      sandbox.events := sandbox.events + [ApplyPendingAction];
    }

    /**
     * One drag sample at pointer position `stage`. `fixPoint` is the
     * press position when the move is reduced to one axis.
     */
    method ItemTouchDragged(stage: Point, fixPoint: Option<Point>, isFirstDragCall: bool, input: InputState)
      requires Valid()
      modifies this`reducedMoveDirection, sandbox`items, sandbox`selection, sandbox`dirty, sandbox`events
      ensures Valid()
      ensures sandbox.events == old(sandbox.events) + [UpdateCurrentItemState]
      ensures var moves := DragMoves(sandbox.isItemTouched, sandbox.isResizing, input);
        && reducedMoveDirection
          == (if moves then NextDirection(old(reducedMoveDirection), stage, fixPoint, isFirstDragCall) else old(reducedMoveDirection))
        && sandbox.dirty == (old(sandbox.dirty) || moves)
        && sandbox.items
          == (if moves
              then DraggedItems(old(sandbox.items), old(sandbox.selection),
                                DragTarget(stage, fixPoint, reducedMoveDirection, sandbox.gridSize), sandbox.gridSize)
              else old(sandbox.items))
        && sandbox.selection == (if moves then DraggedRects(old(sandbox.selection), sandbox.gridSize) else old(sandbox.selection))
    {
      if sandbox.isItemTouched && !sandbox.isResizing && input.IsButtonPressed(BUTTON_LEFT) {
        sandbox.dirty := true;

        var target: Point;
        if fixPoint.Some? {
          if isFirstDragCall {
            reducedMoveDirection := ReducedDirection(stage.Minus(fixPoint.value));
          }
          target := ReducedTarget(fixPoint.value, stage, reducedMoveDirection);
        } else {
          target := SnapPoint(stage, sandbox.gridSize);
        }
        MoveSelection(target);
      }
      sandbox.events := sandbox.events + [UpdateCurrentItemState];
    }

    /**
     * A scroll of `amount`: while an item is touched, rotate every selected
     * item and mark the scene dirty; otherwise zoom when left alt is held.
     * The event is never reported as handled.
     */
    method SandboxMouseScrolled(amount: int, input: InputState) returns (handled: bool)
      requires Valid()
      modifies sandbox`items, sandbox`dirty, sandbox`events
      ensures Valid() && !handled
      ensures amount == 0 ==>
        sandbox.items == old(sandbox.items) && sandbox.dirty == old(sandbox.dirty) && sandbox.events == old(sandbox.events)
      ensures amount != 0 && sandbox.isItemTouched ==>
        && sandbox.items == RotatedItems(old(sandbox.items), sandbox.Selected(), ScrollDegrees(amount, input.IsKeyPressed(SHIFT_LEFT)))
        && sandbox.dirty && sandbox.events == old(sandbox.events)
      ensures amount != 0 && !sandbox.isItemTouched ==>
        && sandbox.items == old(sandbox.items) && sandbox.dirty == old(sandbox.dirty)
        && sandbox.events == old(sandbox.events) + (if input.IsKeyPressed(ALT_LEFT) then [ZoomBy(amount)] else [])
    {
      if amount == 0 {
        return false;
      }
      if sandbox.isItemTouched {
        RotateSelection(ScrollDegrees(amount, input.IsKeyPressed(SHIFT_LEFT)));
        sandbox.dirty := true;
      } else if input.IsKeyPressed(ALT_LEFT) {
        sandbox.events := sandbox.events + [ZoomBy(amount)];
      }
      handled := false;
    }

    /**
     * A release over empty space. A right click clears the selection and
     * shows the default context menu, which may consume the event
     * (`dropDownShown`). Otherwise a pan ends unless space is still held,
     * and without a pan the rubber-band selection is completed.
     */
    method SandboxTouchUp(at: Point, button: int, input: InputState, dropDownShown: bool)
      requires Valid()
      modifies sandbox`selection, sandbox`cameraPanOn, sandbox`events
      ensures Valid()
      ensures sandbox.selection == if button == BUTTON_RIGHT then map[] else old(sandbox.selection)
      ensures var consumed := button == BUTTON_RIGHT && dropDownShown;
        && sandbox.cameraPanOn
          == (if !consumed && old(sandbox.cameraPanOn) then input.IsKeyPressed(SPACE) else old(sandbox.cameraPanOn))
        && sandbox.events == old(sandbox.events)
          + (if button == BUTTON_RIGHT then [ShowDropDown(at)] else [])
          + (if consumed || old(sandbox.cameraPanOn) then [] else [SelectionComplete])
    {
      if button == BUTTON_RIGHT {
        sandbox.ClearSelections();
        sandbox.events := sandbox.events + [ShowDropDown(at)];
        if dropDownShown {
          return;
        }
      }
      if sandbox.cameraPanOn {
        sandbox.cameraPanOn := input.IsKeyPressed(SPACE);
        return;
      }
      sandbox.events := sandbox.events + [SelectionComplete];
    }

    // -------------------------------------------------------------------
    // The item listener: how the callbacks above are driven
    // -------------------------------------------------------------------

    /** Touch down: remember where the gesture started, then handle the press. */
    method TouchDown(item: ItemId, stage: Point, input: InputState) returns (dragPrepared: bool)
      requires Valid() && item in sandbox.items
      modifies this`dragStartPosition, this`currentTouchedItemWasSelected
      modifies sandbox`selection, sandbox`isItemTouched, sandbox`events
      ensures Valid() && dragStartPosition == stage
      ensures currentTouchedItemWasSelected == (item in old(sandbox.selection))
      ensures sandbox.Selected()
        == PressSelection(old(sandbox.Selected()), item, IsShiftPressed(input), sandbox.items[item].lockedByLayer)
      ensures forall id :: id in sandbox.selection && id in old(sandbox.selection) ==>
        sandbox.selection[id].visible == old(sandbox.selection)[id].visible
      ensures item !in old(sandbox.selection) && item in sandbox.selection ==> sandbox.selection[item].visible
      ensures sandbox.cameraPanOn && item !in old(sandbox.selection) && item in sandbox.selection ==>
        sandbox.selection[item] == NEW_RECT
      ensures dragPrepared == !sandbox.cameraPanOn
      ensures sandbox.cameraPanOn ==>
        && sandbox.isItemTouched == old(sandbox.isItemTouched)
        && sandbox.events == old(sandbox.events)
        && forall id :: id in sandbox.selection && id in old(sandbox.selection) ==> sandbox.selection[id] == old(sandbox.selection)[id]
      ensures !sandbox.cameraPanOn ==>
        && sandbox.isItemTouched
        && sandbox.events == old(sandbox.events) + [UpdateCurrentItemState]
        && forall id :: id in sandbox.selection ==> sandbox.selection[id].touchDiff == stage.Minus(sandbox.items[id].position)
    {
      dragStartPosition := stage;
      dragPrepared := ItemTouchDown(item, stage, input);
    }

    /** Touch up: handle the release, a double click when this is the second tap, and end the drag. */
    method TouchUp(item: ItemId, stage: Point, button: int, tapCount: int, input: InputState)
      requires Valid()
      modifies this`isDragging, sandbox`selection, sandbox`isItemTouched, sandbox`dirty, sandbox`events
      ensures Valid() && !isDragging
      ensures sandbox.Selected() == ReleaseSelection(old(sandbox.Selected()), item,
        currentTouchedItemWasSelected, old(isDragging), IsShiftPressed(input))
      ensures sandbox.cameraPanOn ==>
        && sandbox.isItemTouched == old(sandbox.isItemTouched) && sandbox.dirty == old(sandbox.dirty)
        && sandbox.events == old(sandbox.events) + [FlushAllSelectedItems]
          + (if tapCount == 2 then DOUBLE_CLICK_EVENTS else [])
        && forall id :: id in sandbox.selection ==> sandbox.selection[id] == old(sandbox.selection)[id]
      ensures !sandbox.cameraPanOn ==>
        && !sandbox.isItemTouched && !sandbox.dirty
        && sandbox.events == old(sandbox.events) + [FlushAllSelectedItems] + ReleaseEvents(button, stage, old(sandbox.dirty))
          + (if tapCount == 2 then DOUBLE_CLICK_EVENTS else [])
        && sandbox.selection == ShownRects(old(sandbox.selection) - (old(sandbox.Selected()) - sandbox.Selected()))
        && forall id :: id in sandbox.selection ==> sandbox.selection[id].visible
    {
      ItemTouchUp(item, stage, button, input);
      if tapCount == 2 {
        ItemDoubleClick();
      }
      isDragging := false;
    }

    /**
     * Touch dragged: the first sample of a gesture is the one that finds
     * `isDragging` still false; every sample sets it.
     */
    method TouchDragged(stage: Point, input: InputState)
      requires Valid()
      modifies this`isDragging, this`reducedMoveDirection
      modifies sandbox`items, sandbox`selection, sandbox`dirty, sandbox`events
      ensures Valid() && isDragging
      ensures old(isDragging) ==> reducedMoveDirection == old(reducedMoveDirection)
      ensures sandbox.events == old(sandbox.events) + [UpdateCurrentItemState]
      ensures var moves := DragMoves(sandbox.isItemTouched, sandbox.isResizing, input);
        var fixPoint := if reducedMouseMoveEnabled then Some(dragStartPosition) else None;
        && reducedMoveDirection
          == (if moves then NextDirection(old(reducedMoveDirection), stage, fixPoint, !old(isDragging)) else old(reducedMoveDirection))
        && sandbox.dirty == (old(sandbox.dirty) || moves)
        && sandbox.items
          == (if moves
              then DraggedItems(old(sandbox.items), old(sandbox.selection),
                                DragTarget(stage, fixPoint, reducedMoveDirection, sandbox.gridSize), sandbox.gridSize)
              else old(sandbox.items))
        && sandbox.selection == (if moves then DraggedRects(old(sandbox.selection), sandbox.gridSize) else old(sandbox.selection))
    {
      var isFirstDrag := !isDragging;
      isDragging := true;
      var fixPoint := if reducedMouseMoveEnabled then Some(dragStartPosition) else None;
      ItemTouchDragged(stage, fixPoint, isFirstDrag, input);
    }
  }

  // ---------------------------------------------------------------------
  // Whole gestures
  // ---------------------------------------------------------------------

  /** Shift-clicking a selected item without dragging deselects it and nothing else. */
  method ShiftClickDeselects(adapter: InputAdapter, item: ItemId, at: Point, input: InputState)
    requires adapter.Valid() && item in adapter.sandbox.items && item in adapter.sandbox.selection
    requires IsShiftPressed(input) && !adapter.sandbox.cameraPanOn && !adapter.isDragging
    modifies adapter, adapter.sandbox
    ensures adapter.Valid()
    ensures adapter.sandbox.Selected() == old(adapter.sandbox.Selected()) - {item}
  {
    var _ := adapter.TouchDown(item, at, input);
    adapter.TouchUp(item, at, BUTTON_LEFT, 1, input);
  }

  /**
   * Press on an unselected, unlocked item, one grid drag, release: the
   * item alone is selected, it sits at the snapped pointer minus its
   * snapped press offset, its rectangle is shown again, and the scene has
   * been saved and is clean.
   */
  method PressDragRelease(adapter: InputAdapter, item: ItemId, press: Point, drop: Point, input: InputState)
    requires adapter.Valid() && item in adapter.sandbox.items && item !in adapter.sandbox.selection
    requires !adapter.sandbox.items[item].lockedByLayer
    requires !IsShiftPressed(input) && input.IsButtonPressed(BUTTON_LEFT)
    requires !adapter.sandbox.cameraPanOn && !adapter.sandbox.isResizing && !adapter.reducedMouseMoveEnabled
    modifies adapter, adapter.sandbox
    ensures adapter.Valid()
    ensures adapter.sandbox.Selected() == {item}
    ensures var g := adapter.sandbox.gridSize;
      adapter.sandbox.items[item].position
        == SnapPoint(drop, g).Minus(SnapPoint(press.Minus(old(adapter.sandbox.items[item].position)), g))
    ensures adapter.sandbox.selection[item].visible
    ensures !adapter.sandbox.dirty && !adapter.sandbox.isItemTouched && !adapter.isDragging
    ensures |old(adapter.sandbox.events)| <= |adapter.sandbox.events|
    ensures SaveSceneCurrentSceneData in adapter.sandbox.events[|old(adapter.sandbox.events)|..]
  {
    var sandbox := adapter.sandbox;
    ghost var e0 := sandbox.events;
    var _ := adapter.TouchDown(item, press, input);
    assert sandbox.selection.Keys == {item};
    adapter.TouchDragged(drop, input);
    assert sandbox.dirty;
    ghost var mid := sandbox.events;
    adapter.TouchUp(item, drop, BUTTON_LEFT, 1, input);
    assert sandbox.events == mid + [FlushAllSelectedItems] + ReleaseEvents(BUTTON_LEFT, drop, true);
    assert SaveSceneCurrentSceneData in ReleaseEvents(BUTTON_LEFT, drop, true);
    assert |e0| <= |mid|;
    assert sandbox.events[|e0|..] == mid[|e0|..] + [FlushAllSelectedItems] + ReleaseEvents(BUTTON_LEFT, drop, true);
  }
}
