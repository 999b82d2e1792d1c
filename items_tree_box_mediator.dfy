/**
 * The mediator between the scene and the items tree panel. It subscribes
 * to scene notifications, rebuilds the tree when the scene is loaded or an
 * item is added, and turns a selection made in the tree into one "set
 * selection" message per node whose entity still exists.
 *
 * A tree node is modelled by the unique id it carries; the entity store's
 * lookup by unique id is a map, and `E` stands for the entity type. What
 * the mediator sends or asks of its view is returned as a sequence of
 * effects, in the order it happens.
 */
module ItemsTreeBoxMediator {

  /** Names of notifications; `Other` covers every name this mediator does not itself handle. */
  datatype Name = SceneLoaded | NewItemAdded | ItemsSelected | Other(name: string)

  /** A notification; `selectedNodes` is its body when the name is ItemsSelected. */
  datatype Notification = Notification(name: Name, selectedNodes: seq<int>)

  datatype Effect<E> =
    | ParentHandles(name: Name)    // the panel mediator's own handling, which runs first
    | InitTree(root: E)            // rebuild the whole tree from the scene root
    | SetSelection(items: set<E>)  // a scene-wide "set selection" message

  const OWN_INTERESTS: seq<Name> := [SceneLoaded, NewItemAdded, ItemsSelected]

  /** The parent's interests followed by this mediator's three, in order, nothing dropped. */
  function NotificationInterests(parentInterests: seq<Name>): (r: seq<Name>)
    ensures |r| == |parentInterests| + 3
    ensures r[..|parentInterests|] == parentInterests
    ensures r[|parentInterests|..] == OWN_INTERESTS
  {
    parentInterests + OWN_INTERESTS
  }

  /** Every name a notification can be dispatched on here is subscribed to, and so is every name the parent subscribes to. */
  lemma InterestsCoverHandledNames(parentInterests: seq<Name>, n: Name)
    ensures n in NotificationInterests(parentInterests) <==> n in parentInterests || n in OWN_INTERESTS
  {
  }

  /** The message announcing that `entity` alone is now selected. */
  function AddSelectionAction<E>(entity: E): Effect<E>
  {
    SetSelection({entity})
  }

  /**
   * The messages for a tree selection: for each node, in node order, a
   * singleton selection of its entity if its id resolves; nothing for a
   * node whose entity is gone.
   */
  function SelectionMessages<E>(nodes: seq<int>, lookup: map<int, E>): (r: seq<Effect<E>>)
    ensures |r| <= |nodes|
    ensures forall i :: 0 <= i < |r| ==> r[i].SetSelection? && |r[i].items| == 1
  {
    if nodes == [] then []
    else
      (if nodes[0] in lookup then [AddSelectionAction(lookup[nodes[0]])] else [])
      + SelectionMessages(nodes[1..], lookup)
  }

  /** Selecting the nodes of `a` and then those of `b` sends the messages for `a` followed by those for `b`. */
  lemma {:induction false} SelectionMessagesAppend<E>(a: seq<int>, b: seq<int>, lookup: map<int, E>)
    ensures SelectionMessages(a + b, lookup) == SelectionMessages(a, lookup) + SelectionMessages(b, lookup)
  {
    if a == [] {
      assert a + b == b;
    } else {
      assert (a + b)[0] == a[0];
      assert (a + b)[1..] == a[1..] + b;
      SelectionMessagesAppend(a[1..], b, lookup);
    }
  }

  /** A node whose id no longer resolves contributes nothing, wherever it stands. */
  lemma {:induction false} StaleNodeIsSkipped<E>(before: seq<int>, stale: int, after: seq<int>, lookup: map<int, E>)
    requires stale !in lookup
    ensures SelectionMessages(before + [stale] + after, lookup) == SelectionMessages(before + after, lookup)
  {
    SelectionMessagesAppend(before + [stale], after, lookup);
    SelectionMessagesAppend(before, [stale], lookup);
    SelectionMessagesAppend(before, after, lookup);
    assert SelectionMessages([stale], lookup) == [];
  }

  /** When every id resolves, the i-th message selects exactly the i-th node's entity. */
  lemma {:induction false} AllResolvedSelectsEachNode<E>(nodes: seq<int>, lookup: map<int, E>)
    requires forall i :: 0 <= i < |nodes| ==> nodes[i] in lookup
    ensures |SelectionMessages(nodes, lookup)| == |nodes|
    ensures forall i :: 0 <= i < |nodes| ==> SelectionMessages(nodes, lookup)[i] == SetSelection({lookup[nodes[i]]})
  {
    if nodes != [] {
      AllResolvedSelectsEachNode(nodes[1..], lookup);
      var rest := SelectionMessages(nodes[1..], lookup);
      assert SelectionMessages(nodes, lookup) == [SetSelection({lookup[nodes[0]]})] + rest;
    }
  }

  /** When no id resolves, nothing is sent; in particular an empty tree selection sends nothing. */
  lemma {:induction false} NoneResolvedSendsNothing<E>(nodes: seq<int>, lookup: map<int, E>)
    requires forall i :: 0 <= i < |nodes| ==> nodes[i] !in lookup
    ensures SelectionMessages(nodes, lookup) == []
  {
    if nodes != [] {
      NoneResolvedSendsNothing(nodes[1..], lookup);
    }
  }

  /**
   * The messages sent are exactly those for resolving nodes: each message
   * selects some resolving node's entity, and each resolving node's
   * entity gets a message.
   */
  lemma {:induction false} MessagesMatchResolvingNodes<E>(nodes: seq<int>, lookup: map<int, E>)
    ensures forall m :: m in SelectionMessages(nodes, lookup) ==>
      exists i :: 0 <= i < |nodes| && nodes[i] in lookup && m == SetSelection({lookup[nodes[i]]})
    ensures forall i :: 0 <= i < |nodes| && nodes[i] in lookup ==>
      SetSelection({lookup[nodes[i]]}) in SelectionMessages(nodes, lookup)
  {
    if nodes != [] {
      MessagesMatchResolvingNodes(nodes[1..], lookup);
      var head := if nodes[0] in lookup then [AddSelectionAction(lookup[nodes[0]])] else [];
      var rest := SelectionMessages(nodes[1..], lookup);
      assert SelectionMessages(nodes, lookup) == head + rest;
      forall m | m in SelectionMessages(nodes, lookup)
        ensures exists i :: 0 <= i < |nodes| && nodes[i] in lookup && m == SetSelection({lookup[nodes[i]]})
      {
        if m in head {
          assert nodes[0] in lookup && m == SetSelection({lookup[nodes[0]]});
        } else {
          assert m in rest;
          var j :| 0 <= j < |nodes[1..]| && nodes[1..][j] in lookup && m == SetSelection({lookup[nodes[1..][j]]});
          assert nodes[j + 1] == nodes[1..][j];
        }
      }
      forall i | 0 <= i < |nodes| && nodes[i] in lookup
        ensures SetSelection({lookup[nodes[i]]}) in SelectionMessages(nodes, lookup)
      {
        if i > 0 {
          assert nodes[1..][i - 1] == nodes[i];
        }
      }
    }
  }

  /** What this mediator itself does for a notification, after the parent's handling. */
  function OwnEffects<E>(n: Notification, root: E, lookup: map<int, E>): (r: seq<Effect<E>>)
    ensures forall i :: 0 <= i < |r| ==> !r[i].ParentHandles?
    ensures n.name.ItemsSelected? ==>
      |r| <= |n.selectedNodes| && forall i :: 0 <= i < |r| ==> r[i].SetSelection? && |r[i].items| == 1
    ensures !n.name.ItemsSelected? ==> |r| <= 1 && forall i :: 0 <= i < |r| ==> r[i] == InitTree(root)
  {
    match n.name
    case SceneLoaded => [InitTree(root)]
    case NewItemAdded => [InitTree(root)]
    case ItemsSelected => SelectionMessages(n.selectedNodes, lookup)
    case Other(_) => []
  }

  /** Loading a scene and adding an item both rebuild the tree from the root, whatever the bodies. */
  lemma LoadAndAddRebuildAlike<E>(root: E, lookup: map<int, E>, body1: seq<int>, body2: seq<int>)
    ensures OwnEffects(Notification(SceneLoaded, body1), root, lookup)
      == OwnEffects(Notification(NewItemAdded, body2), root, lookup)
      == [InitTree(root)]
  {
  }

  /** A name outside the three handled ones has no effect here beyond the parent's handling. */
  lemma OtherNamesHaveNoOwnEffect<E>(n: Notification, root: E, lookup: map<int, E>)
    requires n.name.Other?
    ensures OwnEffects(n, root, lookup) == []
  {
  }

  /**
   * Handles one notification: the parent first, then a tree rebuild for a
   * loaded scene or an added item, or one selection message per resolving
   * node for a tree selection.
   */
  method HandleNotification<E>(n: Notification, root: E, lookup: map<int, E>) returns (effects: seq<Effect<E>>)
    ensures effects == [ParentHandles(n.name)] + OwnEffects(n, root, lookup)
  {
    effects := [ParentHandles(n.name)];
    match n.name {
      case SceneLoaded =>
        effects := effects + [InitTree(root)];
      case NewItemAdded =>
        effects := effects + [InitTree(root)];
      case ItemsSelected =>
        var nodes := n.selectedNodes;
        var i := 0;
        while i < |nodes|
          invariant 0 <= i <= |nodes|
          invariant effects == [ParentHandles(n.name)] + SelectionMessages(nodes[..i], lookup)
        {
          var entityId := nodes[i];
          if entityId in lookup {
            effects := effects + [AddSelectionAction(lookup[entityId])];
          }
          SelectionMessagesAppend(nodes[..i], [entityId], lookup);
          assert nodes[..i + 1] == nodes[..i] + [entityId];
          i := i + 1;
        }
        assert nodes[..i] == nodes;
      case Other(_) =>
    }
  }
}
