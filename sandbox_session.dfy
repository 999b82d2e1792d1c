/**
 * The editor session the input handlers read and write: the scene items
 * they move and rotate, the selector's current selection, and the
 * session flags (`isItemTouched`, `dirty`, `cameraPanOn`, `isResizing`).
 *
 * Side effects of the session that the handlers only trigger (saving the
 * scene, showing a context menu, zooming, entering a composite, history,
 * rubber-band selection, refreshing the property panel) are appended to
 * an event log instead of being carried out.
 */
module SandboxSession {
  import opened Geometry

  type ItemId = int

  /** A scene item as the handlers see it: its actor's position, its rotation in degrees, and its layer lock. */
  datatype Item = Item(position: Point, rotation: int, lockedByLayer: bool)

  /**
   * The selector's decoration of one selected item: the pointer's offset
   * from the item's origin recorded at press time, and whether the
   * rectangle is shown (it is hidden while the item is dragged).
   */
  datatype SelectionRect = SelectionRect(touchDiff: Point, visible: bool)

  /** The decoration a newly selected item gets. */
  const NEW_RECT: SelectionRect := SelectionRect(Origin, true)

  datatype FlowAction = GetIntoComposite

  datatype Event =
    | UpdateCurrentItemState
    | FlushAllSelectedItems
    | ShowDropDown(at: Point)
    | SaveSceneCurrentSceneData
    | ZoomBy(amount: int)
    | EnterIntoComposite
    | SetPendingHistory(action: FlowAction)
    | ApplyPendingAction
    | SelectionComplete

  class Sandbox {
    var items: map<ItemId, Item>
    /** The current selection: each selected item with its selection rectangle. */
    var selection: map<ItemId, SelectionRect>
    var isItemTouched: bool
    var dirty: bool
    var cameraPanOn: bool
    var isResizing: bool
    const gridSize: int
    var events: seq<Event>

    ghost predicate Valid()
      reads this
    {
      gridSize > 0 && selection.Keys <= items.Keys
    }

    constructor (items: map<ItemId, Item>, gridSize: int)
      requires gridSize > 0
      ensures Valid()
      ensures this.items == items && this.gridSize == gridSize
      ensures selection == map[] && events == []
      ensures !isItemTouched && !dirty && !cameraPanOn && !isResizing
    {
      this.items := items;
      this.gridSize := gridSize;
      selection := map[];
      isItemTouched, dirty, cameraPanOn, isResizing := false, false, false, false;
      events := [];
    }

    function Selected(): set<ItemId>
      reads this
    {
      selection.Keys
    }

    /**
     * Selects `item`; with `removeAll` every other item is deselected
     * first, otherwise the item is added to the selection. Items that stay
     * selected keep their rectangles.
     */
    method SetSelection(item: ItemId, removeAll: bool)
      requires Valid() && item in items
      modifies this`selection
      ensures Valid()
      ensures Selected() == if removeAll then {item} else old(Selected()) + {item}
      ensures forall id :: id in selection && id in old(selection) ==> selection[id] == old(selection)[id]
      ensures item !in old(selection) ==> selection[item] == NEW_RECT
    {
      var kept := selection;
      if removeAll {
        kept := if item in selection then map[item := selection[item]] else map[];
      }
      if item !in kept {
        kept := kept[item := NEW_RECT];
      }
      selection := kept;
    }

    /** Deselects every item. */
    method ClearSelections()
      requires Valid()
      modifies this`selection
      ensures Valid()
      ensures selection == map[]
    {
      selection := map[];
    }

    /** Deselects `item` and keeps everything else selected. */
    method ReleaseSelection(item: ItemId)
      requires Valid()
      modifies this`selection
      ensures Valid()
      ensures selection == old(selection) - {item}
    {
      selection := selection - {item};
    }
  }
}
