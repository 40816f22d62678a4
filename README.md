# OrgChart: a verified model of the editor and the assistant layout

OrgChart is a GoJS org-chart editor (`js/main.js`). Apart from templates
and UI wiring, four pieces of logic in it can be stated without the
library. This project models each of them in Dafny and proves what they
promise:

* **The org tree and its edits** (`org_model.dfy`, `org_editor.dfy`).
  - The chart is a map from key to employee record. Each record has an
    optional `parent` key.
  - `Forest` says every chain of bosses ends at a root: there are no
    cycles and no dangling parent keys.
  - The editor is a class `Diagram` that owns the chart and the key
    function. Its methods are the drag-and-drop reparent (`mayWorkFor`
    followed by `mouseDrop`), the four context-menu commands (Vacate
    Position, Remove Role, Remove Department, Toggle Assistant), and the
    two double clicks that add a person.
  - Each method keeps the chart a forest and states exactly which records
    change. The drop rule is proved to allow exactly the drops that keep
    the chart a forest.
* **The unique key function** (`key_gen.dfy`). This is
  `makeUniqueKeyFunction` from `load`: a class holding `lastkey`, with a
  counting loop.
* **The assistant layout** (`side_tree_spec.dfy`, `side_tree_lemmas.dfy`,
  `side_tree.dfy`). This is `SideTreeLayout.makeNetwork`.
  - The layout network is an object whose vertex and edge lists the
    library's primitives change in place (`createVertex`/`addVertex`,
    `linkVertexes`, `add`/`deleteDestinationEdge`, `e.fromVertex = …`). The
    model's `LayoutNetwork` class has those lists as fields.
  - The per-vertex loop body is proved equal to a pure rewrite,
    `RewriteVertex`.
  - The whole pass is proved to leave every vertex without assistant
    children unchanged, and to leave every vertex with assistant children
    *arranged*:
    - its assistants are still its direct children, through the same
      edges;
    - a dummy child comes first when their number is odd;
    - a new substitute vertex without a node is its last child and owns
      the former regular children, in their order.
  - `assignTreeVertexValues` is a method with the same early-exit loop. It
    is tied back to the network: after the pass an arranged parent has an
    assistant child, so it gets bus alignment. The substitute has no node
    and no assistant children, so it gets zero layer spacing when the
    parent had regular children; a childless substitute keeps its spacing.
  - Every dummy and every substitute is a fresh vertex of its own: the
    vertexes created for an earlier parent come before those of a later
    one, so no two parents share one.
* **The level colour** (`level_colors.dfy`). This is
  `levelColors[v.level % levelColors.length]`, proved to cycle with
  period eight, so levels fewer than eight apart never share a colour.
  That covers a boss and a direct report, one level apart, and a boss and
  a regular report two levels apart with a substitute between them.

Library calls are modelled by the meaning the code relies on:
- `isInTreeOf(a)`: `a` is a strict ancestor.
- `findTreeChildrenNodes`: the records whose parent key is this node.
- `findTreeParts`: the node and all its descendants.
- `go.Set`: an insertion-ordered list without duplicates.
- `v.children`: the destination vertexes, in the order of the destination
  edges.

Remove Role's guard follows the code, which is more permissive than a
precondition of "has a boss":
- The code reads `findTreeParentNode().data` once per child.
- A node without a boss and without children is simply removed.
- A node without a boss but with children makes the first read throw
  before anything has changed. The model returns `Fail(NoTreeParent)` and
  leaves the chart as it was.

## Model

| member | source | states |
|---|---|---|
| OrgModel.NewPerson | js/main.js:11-15 | the added record is named "(new person)", has an empty title and comments, the given boss and is not an assistant |
| OrgModel.AddPerson | js/main.js:85-91 | the chart gains exactly the new key, holding a new person under the given boss; every other record is unchanged |
| OrgModel.Reparent | js/main.js:144-149 | the keys stay the same, the moved record's parent key becomes the target and nothing else about it changes, and no other record changes |
| OrgModel.Vacate | js/main.js:231-232 | the keys stay the same, the record's name becomes "(Vacant)" and its comments empty, its other fields and all other records are unchanged |
| OrgModel.ToggleAssistant | js/main.js:281 | the keys stay the same, the record's assistant flag is negated, its other fields and all other records are unchanged |
| OrgModel.LiftChildren | js/main.js:246-253 | the node's key is gone, each child of the node takes the node's parent key, every other record is unchanged, and no record names the node as boss afterwards |
| OrgModel.RemoveRole | js/main.js:241-256 | Remove Role fails exactly when the node has children but no tree parent, and otherwise lifts the children and removes the node |
| OrgModel.RemoveDepartment | js/main.js:262-270 | the remaining keys are exactly those outside the node's subtree, the node is among the removed, and every remaining record is unchanged |
| OrgModel.IsAssistant | js/main.js:317-320 | a missing node is never an assistant; a present node is one exactly when its record's flag is set |
| OrgModel.ReparentKeepsForestIff | js/main.js:139-151 | making `b` the boss of `a` leaves a forest if and only if `a != b` and `a` is not an ancestor of `b` (both directions) |
| OrgModel.RemoveRoleKeepsForest | js/main.js:241-256 | when Remove Role succeeds, the chart is still a forest |
| OrgModel.RemoveRoleAncestors | js/main.js:241-256 | after Remove Role the removed node is gone, every other record remains, and `y` is an ancestor of `x` afterwards exactly when it was one before and `y` is not the removed node |
| OrgModel.RemoveDepartmentKeepsForest | js/main.js:262-270 | removing a department removes exactly the node and its descendants, leaves every other record unchanged, keeps the forest and keeps every remaining ancestor relation |
| OrgModel.AddPersonKeepsForest | js/main.js:80-94 | adding a new person under an existing boss (or none) at an unused key keeps the forest, gives the newcomer no children and changes no existing record |
| OrgModel.VacateChangesOnlyNameAndComments | js/main.js:225-235 | Vacate sets the name to "(Vacant)" and clears the comments, keeps the title, the flag and the whole tree, touches no other record, and is idempotent |
| OrgModel.ToggleAssistantIsInvolution | js/main.js:276-285 | Toggle Assistant negates only the flag of the one record, keeps the tree, and toggling twice restores the chart |
| OrgModel.SameTreeSameForest | js/main.js:10 | edits that keep every key and every parent key keep a forest a forest and keep every ancestor relation |
| KeyGen.StartKey | js/main.js:464 | the search starts at `data.key` unless it is absent or 0, and at `lastkey` otherwise |
| KeyGen.UniqueKeyFunction.constructor | js/main.js:462 | the key counter starts at 1 |
| KeyGen.UniqueKeyFunction.Call | js/main.js:463-468 | the key returned is unused, is the least unused key at or above the start (`data.key` when truthy, else `lastkey`), equals the start when the start is unused, and is stored in `lastkey` |
| OrgEditor.IsInTreeOf | js/main.js:100 | walking up from `x` finds `a` exactly when `a` is an ancestor of `x` |
| OrgEditor.MayWorkFor | js/main.js:97-102 | the drop is allowed exactly when the selection is a node other than the target and not an ancestor of it, which for records of the chart is exactly when the reparented chart is a forest |
| OrgEditor.FindTreeParts | js/main.js:267 | the collected keys are exactly the node and its descendants |
| OrgEditor.Diagram.constructor | js/main.js:462-468 | the loaded forest with the key function installed on it, as `load`'s comment intends, counter 1 |
| OrgEditor.Diagram.MouseDrop | js/main.js:139-151 | an allowed drop makes the target the selected node's boss and nothing else; any other drop changes nothing; the chart stays a forest |
| OrgEditor.Diagram.VacatePosition | js/main.js:225-235 | the adorned node is vacated (or nothing happens without one), and the chart stays a forest |
| OrgEditor.Diagram.RemoveRoleCommand | js/main.js:241-256 | the children are lifted to the node's boss one at a time and then the node is removed; a node with children but no boss fails before any change; the chart stays a forest |
| OrgEditor.Diagram.RemoveDepartmentCommand | js/main.js:262-270 | the node and its descendants are removed, and the chart stays a forest |
| OrgEditor.Diagram.ToggleAssistantFlag | js/main.js:276-285 | the adorned node's flag is negated, and the chart stays a forest |
| OrgEditor.Diagram.NodeDoubleClick | js/main.js:80-94 | a "(new person)" under the clicked node, at the least unused key at or above the key function's positive counter, and the chart stays a forest |
| OrgEditor.Diagram.BackgroundDoubleClick | js/main.js:11-15 | a copy of the archetype "(new person)" with no boss, keyed by the key function with a positive key, and the chart stays a forest |
| OrgEditor.Diagram.NodeDoubleClickLoaded | js/main.js:449-468 | after the fetch replaced the model, a "(new person)" under the clicked node at whatever unused key the library supplies; the key function is not consulted; the chart stays a forest |
| OrgEditor.Diagram.BackgroundDoubleClickLoaded | js/main.js:449-468 | after the fetch replaced the model, the archetype record with no boss at the library's unused key; the chart stays a forest |
| OrgEditor.LoadedKeyNeedNotBePositive | js/main.js:461-468 | a forest with a root at key 1 accepts a new report at key 0, a key the key function, counting up from 1, never hands out |
| SideTreeSpec.AssistantEdges | js/main.js:345-355 | `asstedges`: the edges of the vertex's destination list that lead to an assistant, in order, as `Select` and `PartitionFacts` state |
| SideTreeSpec.ChildEdges | js/main.js:345-355 | `childedges`: the other edges of the destination list, in order, as `Select` and `PartitionFacts` state |
| SideTreeSpec.FirstAssistantLink | js/main.js:365 | the link of the first assistant edge, which the dummy edge carries, as `LayoutOfNewParts` states |
| SideTreeSpec.Select | js/main.js:345-355 | the edges kept are exactly those of the list that lead (or do not lead) to an assistant, without duplicates when the list has none |
| SideTreeSpec.PartitionFacts | js/main.js:345-355 | the assistant and regular child edges are disjoint, both come from the vertex's destination edges, both are duplicate-free, and together they cover all of them |
| SideTreeSpec.MoveEdges | js/main.js:376-381 | exactly the listed edges now start at the substitute; every other edge is as before |
| SideTreeSpec.RewriteVertex | js/main.js:337-384 | the network only grows, and a vertex without assistant children is left as it is |
| SideTreeSpec.RewriteVertexFrame | js/main.js:343-384 | rewriting a vertex changes no other original vertex, keeps every vertex's node, and changes only the edges that started at it |
| SideTreeSpec.LayoutOfParent | js/main.js:361-384 | the parent's destination edges become the dummy edge (odd count only), then the assistant edges in order, then the substitute edge |
| SideTreeSpec.LayoutOfNewParts | js/main.js:361-384 | the new substitute vertex has no node and owns the regular child edges; the substitute edge is a link-less edge from the parent; for an odd count the dummy is a childless vertex without a node, linked with the first assistant's link |
| SideTreeSpec.LayoutOfOldEdges | js/main.js:372-381 | of the old edges, the regular child edges now start at the substitute and all others are unchanged |
| SideTreeSpec.RewriteVertexWf | js/main.js:329-388 | the rewrite keeps the network well formed: edge ends exist, destination lists are duplicate-free and name edges that start at their vertex |
| SideTreeLemmas.PassStep | js/main.js:334-386 | one more visit of the loop keeps the pass invariant: visited vertexes with assistants are arranged, all other original vertexes and their edges are unchanged, no original vertex loses its node, the vertexes created for earlier parents come before those of later ones, and the network has grown by exactly one substitute (plus one dummy for an odd count of assistants) per visited parent with assistants, in vertexes and in edges alike, and every original edge that no vertex lists is left as it was |
| SideTreeLemmas.NewlyArranged | js/main.js:343-384 | visiting a vertex with assistants leaves it arranged relative to the network the base layout built |
| SideTreeLemmas.VisitedParentLayout | js/main.js:361-371 | the parent half of a visit, from the facts about the visited vertex alone: dummy edge for an odd count, assistant edges in order, link-less substitute edge last |
| SideTreeLemmas.NewlyArrangedParent | js/main.js:361-371 | visiting a vertex with assistants gives it the dummy edge (odd count), its untouched assistant edges in order and a last, link-less edge to a new vertex |
| SideTreeLemmas.NewlyArrangedSubstitute | js/main.js:372-384 | visiting a vertex with assistants makes its last child a vertex without a node that owns the regular child edges, now starting at it |
| SideTreeLemmas.UnchangedFrame | js/main.js:331-335 | visiting one vertex leaves every other still-unchanged original vertex unchanged |
| SideTreeLemmas.ParentFrame | js/main.js:331-335 | visiting one vertex keeps the destination edges of every earlier arranged vertex |
| SideTreeLemmas.SubstituteFrame | js/main.js:331-335 | visiting one vertex keeps the substitute of every earlier arranged vertex |
| SideTreeLemmas.ArrangedFrame | js/main.js:331-335 | visiting one vertex keeps every earlier arranged vertex arranged |
| SideTreeLemmas.CreatedCountStep | js/main.js:361-384 | visiting one more vertex adds nothing when it has no assistants, and otherwise adds one substitute and one edge, plus a dummy and a second edge for an odd count of assistants |
| SideTreeLemmas.PassComplete | js/main.js:331-386 | once every original vertex has been visited, each one with assistants is arranged, each one without is unchanged with its edges, every original vertex keeps its node, the created vertexes follow the order of their parents, and the vertexes and edges added are exactly the substitutes and dummies, `Created(s, |s.vertexes|)` of each, while an original edge that no vertex lists is left as it was |
| SideTreeLemmas.NewVertexesFrame | js/main.js:331-335 | visiting one vertex keeps the dummy and the substitute of every earlier arranged vertex |
| SideTreeLemmas.NewVertexesStep | js/main.js:361-375 | the vertexes created on a visit come after all vertexes created before it, so the order of created vertexes follows the order of their parents |
| SideTreeLemmas.UnlistedEdgesStep | js/main.js:345-384 | a visit touches only the edges the visited vertex lists, so an edge that no original vertex lists stays as it was |
| SideTreeLemmas.OriginalEdgeKeepsTarget | js/main.js:356-380 | after the pass every original edge still leads to the vertex it led to; only the `fromVertex` of a regular child edge changes |
| SideTreeLemmas.NewEdgesFresh | js/main.js:363-384 | the edges `linkVertexes` adds to a dummy and to a substitute are new edges, numbered after every original edge |
| SideTreeLemmas.NewVertexesFresh | js/main.js:361-375 | the dummy and the substitute of an arranged vertex are new vertexes, not original ones |
| SideTreeLemmas.NewVertexesDistinct | js/main.js:361-375 | two different arranged vertexes have no dummy or substitute in common |
| SideTreeLemmas.AssistantsStayWithParent | js/main.js:368-371 | each assistant of an arranged vertex is still its direct child through the same, unchanged edge |
| SideTreeLemmas.ChildCountOdd | js/main.js:361-384 | an arranged vertex has its assistants plus one dummy exactly when their number is odd, an even count, and then the substitute as its last, link-less child, an odd total |
| SideTreeLemmas.RegularChildrenMoveToSubstitute | js/main.js:372-384 | the substitute of an arranged vertex has no node and exactly the former regular child edges, in order; they start at it and are no longer the vertex's own |
| SideTreeLemmas.SubstituteHasNoAssistants | js/main.js:405-409 | no child of the substitute is an assistant, and it has exactly as many children as the vertex had regular ones; with its missing node the per-vertex values give it zero layer spacing when there are some, and leave its spacing when there are none |
| SideTreeLemmas.ParentKeepsAnAssistant | js/main.js:390-404 | an arranged vertex still has an assistant child, so the per-vertex values give it bus alignment |
| SideTree.WithEdge | js/main.js:370 | `go.Set.add`: the edge is a member afterwards and so is every old member; it is appended when new and changes nothing when already there |
| SideTree.WithoutEdge | js/main.js:358 | `go.Set.remove`: the members afterwards are exactly the old members other than the edge |
| SideTree.LayoutNetwork.CreateVertex | js/main.js:363-364 | a new vertex without a node or edges, appended |
| SideTree.LayoutNetwork.LinkVertexes | js/main.js:365 | a new edge appended and added to the source vertex's destination edges |
| SideTree.LayoutNetwork.DeleteDestinationEdge | js/main.js:358 | the edge leaves the vertex's destination list; the edge itself stays |
| SideTree.LayoutNetwork.AddDestinationEdge | js/main.js:370 | the edge joins the vertex's destination list unless it is already there |
| SideTree.LayoutNetwork.SetFromVertex | js/main.js:379 | only that edge's source changes |
| SideTree.CountAssistants | js/main.js:337-341 | the count is the number of destination edges that lead to an assistant |
| SideTree.PartitionEdges | js/main.js:345-355 | the two lists are the assistant edges and the regular edges, each in destination order |
| SideTree.DeleteDestinationEdges | js/main.js:357-360 | the vertex's destination list loses exactly the given edges; nothing else changes |
| SideTree.DetachChildren | js/main.js:356-360 | after both deleting loops the parent has no destination edges and nothing else has changed |
| SideTree.AddDestinationEdges | js/main.js:368-371 | the edges are appended to the vertex's destination list in their order; nothing else changes |
| SideTree.MoveChildEdges | js/main.js:375-381 | the regular edges start at the substitute and become its destination list in order |
| SideTree.AddDummy | js/main.js:362-366 | a childless dummy vertex and the parent's single edge to it, carrying the given link |
| SideTree.AttachSubst | js/main.js:367-384 | the assistants are appended after the parent's existing edges, then the substitute takes the regular edges and is linked last |
| SideTree.ArrangeOdd | js/main.js:361-384 | for an odd count: the dummy edge, then the assistants, then the substitute, exactly as the rewrite prescribes |
| SideTree.AttachArranged | js/main.js:361-384 | after the deleting loops, the rest of the body yields exactly the rewritten network |
| SideTree.RewriteParent | js/main.js:335-385 | one loop iteration turns the network into the rewrite of that vertex |
| SideTree.MakeNetwork | js/main.js:329-388 | after visiting every original vertex, those with assistants are arranged, all others and their edges are unchanged, the created vertexes of different parents are distinct, no vertex or edge is added beyond those substitutes and dummies, an original edge that no vertex lists is left as it was, and the network is well formed |
| SideTree.AssignTreeVertexValues | js/main.js:390-411 | any assistant child gives bus alignment and node spacing 50; otherwise a vertex without a node and with children gets layer spacing 0; otherwise nothing changes |
| LevelColors.LevelColor | js/main.js:62-72 | the colour is one of the eight, and for levels below eight it is that level's entry |
| LevelColors.PaletteDistinct | js/main.js:62 | the eight colours are pairwise different |
| LevelColors.SameColorIff | js/main.js:62-72 | two levels get the same colour exactly when they agree modulo eight |
| LevelColors.NearbyLevelsDiffer | js/main.js:62-72 | levels one to seven apart get different colours, so a boss differs from a direct report one level down and from a regular report two levels down below a substitute |

## Left out

- Node and link templates, bindings, fonts, pictures, context-menu layout and `textStyle`: declarative configuration with no behaviour.
- `commitLinks` route patching: geometry on library-owned route points.
- The brush built in `commitNodes` and `go.Brush.lightenBy`: colour arithmetic on floats. Only the colour choice is modelled, and the check that the node has a `SHAPE` is not.
- The fetched chart is assumed to be a forest: `go.Model.fromJson` (js/main.js:456) checks neither for cycles nor for dangling parent keys, so the `Diagram` constructor requires `Forest(loaded)`.
- `load`'s `XMLHttpRequest` fetch and JSON parsing: network I/O. The loaded chart is the `Diagram` constructor's parameter. Where the key function ends up is under "## Findings".
- The library's own key choice on a model without `makeUniqueKeyFunction`: library code, so `NodeDoubleClickLoaded` and `BackgroundDoubleClickLoaded` take it as a parameter that is only required to be unused.
- The `Inspector`, DOM listeners, `insertPart` scrolling and the `SelectionDeleting` listener: UI state only.
- Transactions and the undo manager: each command is modelled as one atomic step.
- `findHeadShot` and the `gender` field: an image-path lookup that depends on server assets.
- `invalidateLayout` after Toggle Assistant, and the `propertyModified` hook: they only schedule a new layout.
- `mouseDragEnter`/`mouseDragLeave`: highlighting only. `mouseDragEnter` uses the same `mayWorkFor`; `mouseDragLeave` only restores the saved brush.
- `findTreeParentLink` relinking versus `insertLink`: both leave the target's key as the selected record's parent key, so `MouseDrop` models them as one update.
- `sourceEdges`, positions, angles and levels of the layout network: the model omits them. `linkVertexes` (js/main.js:365, 384) adds each new edge to its target's `sourceEdges`; `ce.fromVertex = subst` (js/main.js:379) leaves each child's `sourceEdges` as it was, since the edge keeps its `toVertex`.
- `net.createVertex()` and `net.addVertex(...)` are one primitive, `CreateVertex`; the vertex is never used in between.
- `go.Set` and `v.children` ordering: assumed to be insertion order and destination-edge order; the library does not document it.
- The vertex's other layout values (`breadthLimit`, and the commented-out alignment): `VertexValues` holds only the three that `assignTreeVertexValues` assigns, and spacings are integers rather than floating-point numbers.
- The base `TreeLayout.makeNetwork(coll)`: the network it builds is the parameter of `MakeNetwork`, required only to be well formed.
- SideTree.MakeNetwork: states the result through `PassInvariant` relative to the original network, not as one closed-form network, because a fold of the rewrite over all vertexes is not spelled out.

## Findings

| source | as written | input that shows it | evidently intended | confidence | as-written member | corrected member |
|---|---|---|---|---|---|---|
| js/main.js:449-468 | `load` installs `makeUniqueKeyFunction` on the model that exists when it runs; the fetch callback later replaces that model with `go.Model.fromJson(data)`, which has no such function, so new people get the library's default keys | fetch completes, then double-click a node: `addNodeData` never calls the closure, `lastkey` stays 1, and any unused key may be chosen, 0 included (`LoadedKeyNeedNotBePositive`) | new keys are "unique positive integers" from the closure: the least unused key at or above `lastkey` | not executed | OrgEditor.Diagram.NodeDoubleClickLoaded | OrgEditor.Diagram.NodeDoubleClick |
