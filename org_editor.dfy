/**
 * The editor's operations on the chart: the drag-and-drop rule
 * (`mayWorkFor` and `mouseDrop`), the four context-menu commands, and the
 * two double clicks that add a person.  The diagram owns the chart and the
 * key function that `addNodeData` consults; every operation runs as one
 * transaction and keeps the chart a forest.
 */
module OrgEditor {
  import opened Wrappers
  import opened OrgModel
  import KeyGen

  /** A selectable part of the diagram: a node, or the link from `child` to its boss. */
  datatype Part = NodePart(key: Key) | LinkPart(child: Key)

  /** `x.isInTreeOf(a)`: walk up the chain of bosses of `x` looking for `a`. */
  method IsInTreeOf(c: Chart, x: Key, a: Key) returns (r: bool)
    requires Forest(c)
    ensures r <==> IsAncestor(c, a, x)
  {
    if x !in c {
      return false;
    }
    var y := x;
    assert Rooted(c, y);
    ghost var n: nat :| ReachesRoot(c, y, n);
    while c[y].parent.Some?
      invariant y in c && ReachesRoot(c, y, n)
      invariant IsAncestor(c, a, x) <==> IsAncestor(c, a, y)
      decreases n
    {
      var p := c[y].parent.value;
      if p == a {
        assert AncestorWithin(c, a, y, 0);
        return true;
      }
      forall m: nat | AncestorWithin(c, a, p, m) ensures AncestorWithin(c, a, y, m + 1) {
      }
      forall m: nat | AncestorWithin(c, a, y, m) ensures m > 0 && AncestorWithin(c, a, p, m - 1) {
      }
      y, n := p, n - 1;
    }
    return false;
  }

  /**
   * mayWorkFor(node1, node2): the selection must be a node, not the drop
   * target itself, and not an ancestor of the target.  For a node and a
   * target of the chart these are exactly the drops after which the chart
   * is still a forest.
   */
  method MayWorkFor(c: Chart, node1: Option<Part>, node2: Key) returns (ok: bool)
    requires Forest(c)
    ensures ok <==> node1.Some? && node1.value.NodePart? &&
                    node1.value.key != node2 && !IsAncestor(c, node1.value.key, node2)
    ensures node1.Some? && node1.value.NodePart? && node1.value.key in c && node2 in c ==>
              (ok <==> Forest(Reparent(c, node1.value.key, node2)))
  {
    if !(node1.Some? && node1.value.NodePart?) {
      return false;
    }
    var a := node1.value.key;
    if a == node2 {
      ok := false;
    } else {
      var inTree := IsInTreeOf(c, node2, a);
      ok := !inTree;
    }
    if a in c && node2 in c {
      ReparentKeepsForestIff(c, a, node2);
    }
  }

  /** `findTreeParts`: the node `k` together with every node below it. */
  method FindTreeParts(c: Chart, k: Key) returns (parts: set<Key>)
    requires Forest(c) && k in c
    ensures parts == Subtree(c, k)
  {
    parts := {k};
    var rest := c.Keys - {k};
    while rest != {}
      invariant rest <= c.Keys - {k}
      invariant parts == set x | x in c && x !in rest && (x == k || IsAncestor(c, k, x))
      decreases rest
    {
      HasElement(rest);
      var x :| x in rest;
      var below := IsInTreeOf(c, x, k);
      if below {
        parts := parts + {x};
      }
      rest := rest - {x};
    }
  }

  /**
   * After the fetch the library may hand out a key the key function never
   * would: a chart with one root under key 1 accepts a new report under
   * key 0, while the key function only returns keys at or above
   * `lastkey`, which starts at 1.
   */
  lemma LoadedKeyNeedNotBePositive()
    ensures var c: Chart := map[1 := NewPerson(None)];
            Forest(c) && 0 !in c && Forest(AddPerson(c, 0, Some(1))) && 0 in AddPerson(c, 0, Some(1))
  {
    var c: Chart := map[1 := NewPerson(None)];
    assert ReachesRoot(c, 1, 0);
    AddPersonKeepsForest(c, 0, Some(1));
  }

  class Diagram {
    /** The tree model's node data, by key. */
    var model: Chart
    /** The model's `makeUniqueKeyFunction`. */
    const keyFunction: KeyGen.UniqueKeyFunction

    /** The chart is a forest and the key function's counter is a positive integer. */
    ghost predicate Valid()
      reads this, keyFunction
    {
      Forest(model) && keyFunction.lastkey >= 1
    }

    /**
     * The diagram after `load` as its comment intends it: the fetched chart
     * with the key function installed on it, `lastkey == 1`.
     */
    constructor (loaded: Chart)
      requires Forest(loaded)
      ensures Valid() && model == loaded
      ensures fresh(keyFunction) && keyFunction.lastkey == 1
    {
      model := loaded;
      keyFunction := new KeyGen.UniqueKeyFunction();
    }

    /**
     * mouseDrop on `node` while `selection` is dragged: when mayWorkFor
     * allows it, the selected node's link is relinked from `node`, or a new
     * link from `node` is inserted; either way `node` becomes its boss.
     */
    method MouseDrop(selection: Option<Part>, node: Key)
      requires Valid() && node in model
      requires selection.Some? && selection.value.NodePart? ==> selection.value.key in model
      modifies this
      ensures Valid()
      ensures if selection.Some? && selection.value.NodePart? &&
                 selection.value.key != node && !IsAncestor(old(model), selection.value.key, node)
              then model == Reparent(old(model), selection.value.key, node)
              else model == old(model)
    {
      var ok := MayWorkFor(model, selection, node);
      if ok {
        var a := selection.value.key;
        // findTreeParentLink() is a link exactly when a's parent key names a record;
        // relinking it (link.fromNode = node) and insertLink(node, ..., selnode, ...)
        // both leave node's key as a's parent key.
        model := model[a := model[a].(parent := Some(node))];
      }
    }

    /** "Vacate Position" on the adorned node, if there is one. */
    method VacatePosition(node: Option<Key>)
      requires Valid() && (node.Some? ==> node.value in model)
      modifies this
      ensures Valid()
      ensures model == if node.Some? then Vacate(old(model), node.value) else old(model)
    {
      if node.Some? {
        var k := node.value;
        model := model[k := model[k].(name := VacantName)];
        model := model[k := model[k].(comments := "")];
        VacateChangesOnlyNameAndComments(old(model), k);
        SameTreeSameForest(old(model), model);
      }
    }

    /** "Toggle Assistant" on the adorned node, if there is one. */
    method ToggleAssistantFlag(node: Option<Key>)
      requires Valid() && (node.Some? ==> node.value in model)
      modifies this
      ensures Valid()
      ensures model == if node.Some? then ToggleAssistant(old(model), node.value) else old(model)
    {
      if node.Some? {
        var k := node.value;
        model := model[k := model[k].(isAssistant := !model[k].isAssistant)];
        ToggleAssistantIsInvolution(old(model), k);
        SameTreeSameForest(old(model), model);
      }
    }

    /**
     * "Remove Role": every child is given this node's parent key, one child
     * at a time, and then the node is removed.  Reading the parent key of a
     * node without a tree parent fails at the first child, before anything
     * has changed.
     */
    method RemoveRoleCommand(node: Option<Key>) returns (r: Outcome<EditError>)
      requires Valid() && (node.Some? ==> node.value in model)
      modifies this
      ensures Valid()
      ensures node.None? ==> r == Pass && model == old(model)
      ensures node.Some? ==> match RemoveRole(old(model), node.value)
                             case Ok(d) => r == Pass && model == d
                             case Err(e) => r == Fail(e) && model == old(model)
    {
      if node.None? {
        return Pass;
      }
      var k := node.value;
      ghost var c := model;
      ForestHasNoSelfParent(c, k);
      var chl := set x | x in model && model[x].parent == Some(k);
      assert chl == Children(c, k);
      ghost var done: set<Key> := {};
      while chl != {}
        invariant chl + done == Children(c, k) && chl !! done
        invariant model.Keys == c.Keys && model[k] == c[k]
        invariant done != {} ==> HasTreeParent(c, k)
        invariant forall x | x in model ::
                    model[x] == if x in done then c[x].(parent := c[k].parent) else c[x]
        decreases chl
      {
        HasElement(chl);
        var emp :| emp in chl;
        if !(model[k].parent.Some? && model[k].parent.value in model) {
          // node.findTreeParentNode() is null: reading its data throws
          assert done == {};
          assert forall x | x in model :: model[x] == c[x];
          assert model == c;
          return Fail(NoTreeParent);
        }
        model := model[emp := model[emp].(parent := model[k].parent)];
        chl := chl - {emp};
        done := done + {emp};
      }
      model := map x | x in model && x != k :: model[x];
      assert model == LiftChildren(c, k);
      RemoveRoleKeepsForest(c, k);
      return Pass;
    }

    /** "Remove Department": remove the node and everything below it. */
    method RemoveDepartmentCommand(node: Option<Key>)
      requires Valid() && (node.Some? ==> node.value in model)
      modifies this
      ensures Valid()
      ensures model == if node.Some? then RemoveDepartment(old(model), node.value) else old(model)
    {
      if node.Some? {
        var parts := FindTreeParts(model, node.value);
        RemoveDepartmentKeepsForest(model, node.value);
        model := model - parts;
      }
    }

    /**
     * nodeDoubleClick: add "(new person)" under the clicked node.  The new
     * data has no key, so `addNodeData` asks the key function for one.
     */
    method NodeDoubleClick(clicked: Option<Key>) returns (newKey: Key)
      requires Valid() && (clicked.Some? ==> clicked.value in model)
      modifies this, keyFunction
      ensures Valid()
      ensures clicked.None? ==> model == old(model) && keyFunction.lastkey == old(keyFunction.lastkey)
      ensures clicked.Some? ==>
                newKey !in old(model) && 1 <= old(keyFunction.lastkey) <= newKey &&
                (forall j | old(keyFunction.lastkey) <= j < newKey :: j in old(model)) &&
                keyFunction.lastkey == newKey &&
                model == AddPerson(old(model), newKey, clicked)
    {
      newKey := 0;
      if clicked.Some? {
        newKey := keyFunction.Call(model, None);
        AddPersonKeepsForest(model, newKey, clicked);
        model := model[newKey := NewPerson(clicked)];
      }
    }

    /**
     * A double click on the background: the click-creating tool adds a copy
     * of its archetype data, "(new person)" with no boss, keyed by the key
     * function.
     */
    method BackgroundDoubleClick() returns (newKey: Key)
      requires Valid()
      modifies this, keyFunction
      ensures Valid()
      ensures newKey !in old(model) && 1 <= old(keyFunction.lastkey) <= newKey
      ensures forall j | old(keyFunction.lastkey) <= j < newKey :: j in old(model)
      ensures keyFunction.lastkey == newKey
      ensures model == AddPerson(old(model), newKey, None)
    {
      newKey := keyFunction.Call(model, None);
      AddPersonKeepsForest(model, newKey, None);
      model := model[newKey := NewPerson(None)];
    }

    /**
     * nodeDoubleClick as `load` leaves the diagram: the fetch callback
     * replaces the model with `go.Model.fromJson(data)`, which has no
     * `makeUniqueKeyFunction`, so `addNodeData` takes the library's own
     * unused key, `libraryKey`, and the key function is never consulted.
     */
    method NodeDoubleClickLoaded(clicked: Option<Key>, libraryKey: Key)
      requires Valid() && (clicked.Some? ==> clicked.value in model) && libraryKey !in model
      modifies this
      ensures Valid()
      ensures model == if clicked.Some? then AddPerson(old(model), libraryKey, clicked) else old(model)
    {
      if clicked.Some? {
        AddPersonKeepsForest(model, libraryKey, clicked);
        model := model[libraryKey := NewPerson(clicked)];
      }
    }

    /** A background double click on the model the fetch callback installed, keyed by the library. */
    method BackgroundDoubleClickLoaded(libraryKey: Key)
      requires Valid() && libraryKey !in model
      modifies this
      ensures Valid()
      ensures model == AddPerson(old(model), libraryKey, None)
    {
      AddPersonKeepsForest(model, libraryKey, None);
      model := model[libraryKey := NewPerson(None)];
    }
  }
}
