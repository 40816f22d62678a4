/**
 * `SideTreeLayout.makeNetwork` as the imperative code it is: the network
 * the base `TreeLayout` built is an object whose vertex and edge lists the
 * layout library's primitives update in place, and the layout walks a copy
 * of the original vertexes, rewriting each one that has assistants.
 */
module SideTree {
  import opened Wrappers
  import opened OrgModel
  import opened SideTreeSpec
  import opened SideTreeLemmas

  /** `go.Set.add` on a set kept in insertion order. */
  function WithEdge(d: seq<EdgeId>, e: EdgeId): (r: seq<EdgeId>)
    ensures e in r && forall x | x in d :: x in r
    ensures e !in d ==> r == d + [e]
    ensures e in d ==> r == d
  {
    if e in d then d else d + [e]
  }

  /** `go.Set.remove`: `d` without `e`, the rest in order. */
  function WithoutEdge(d: seq<EdgeId>, e: EdgeId): (r: seq<EdgeId>)
    ensures forall x :: x in r <==> x in d && x != e
    decreases |d|
  {
    if d == [] then []
    else
      var front, last := d[..|d| - 1], d[|d| - 1];
      assert forall x | x in d :: x in front || x == last;
      assert forall x | x in front :: x in d;
      var r := WithoutEdge(front, e);
      if last == e then r else r + [last]
  }

  class LayoutNetwork {
    var vertexes: seq<TreeVertex>
    var edges: seq<TreeEdge>

    function State(): Network
      reads this
    {
      Network(vertexes, edges)
    }

    /** The network `super.makeNetwork(coll)` built. */
    constructor (net: Network)
      ensures State() == net
    {
      vertexes := net.vertexes;
      edges := net.edges;
    }

    /** `net.createVertex()` followed by `net.addVertex(...)`: a vertex without a node. */
    method CreateVertex() returns (v: VertexId)
      modifies this
      ensures v == |old(vertexes)|
      ensures vertexes == old(vertexes) + [TreeVertex(None, [])] && edges == old(edges)
    {
      v := |vertexes|;
      vertexes := vertexes + [TreeVertex(None, [])];
    }

    /** `net.linkVertexes(from, to, link)`: a new edge, also added to `from`'s destination edges. */
    method LinkVertexes(from: VertexId, to: VertexId, link: Option<LinkId>) returns (e: EdgeId)
      requires from < |vertexes|
      modifies this
      ensures e == |old(edges)| && edges == old(edges) + [TreeEdge(from, to, link)]
      ensures vertexes == old(vertexes)[from := old(vertexes)[from].(destinationEdges :=
                WithEdge(old(vertexes)[from].destinationEdges, e))]
    {
      e := |edges|;
      edges := edges + [TreeEdge(from, to, link)];
      vertexes := vertexes[from := vertexes[from].(destinationEdges := WithEdge(vertexes[from].destinationEdges, e))];
    }

    /** `v.deleteDestinationEdge(e)`: the edge stays in the network. */
    method DeleteDestinationEdge(v: VertexId, e: EdgeId)
      requires v < |vertexes|
      modifies this
      ensures vertexes == old(vertexes)[v := old(vertexes)[v].(destinationEdges :=
                WithoutEdge(old(vertexes)[v].destinationEdges, e))]
      ensures edges == old(edges)
    {
      vertexes := vertexes[v := vertexes[v].(destinationEdges := WithoutEdge(vertexes[v].destinationEdges, e))];
    }

    /** `v.addDestinationEdge(e)` */
    method AddDestinationEdge(v: VertexId, e: EdgeId)
      requires v < |vertexes|
      modifies this
      ensures vertexes == old(vertexes)[v := old(vertexes)[v].(destinationEdges :=
                WithEdge(old(vertexes)[v].destinationEdges, e))]
      ensures edges == old(edges)
    {
      vertexes := vertexes[v := vertexes[v].(destinationEdges := WithEdge(vertexes[v].destinationEdges, e))];
    }

    /** `e.fromVertex = v` */
    method SetFromVertex(e: EdgeId, v: VertexId)
      requires e < |edges|
      modifies this
      ensures edges == old(edges)[e := old(edges)[e].(fromVertex := v)]
      ensures vertexes == old(vertexes)
    {
      edges := edges[e := edges[e].(fromVertex := v)];
    }
  }

  /** The first loop of the body: count the destination vertexes whose node is an assistant. */
  method CountAssistants(net: LayoutNetwork, p: VertexId) returns (acount: nat)
    requires Wf(net.State()) && p < |net.vertexes|
    ensures acount == |AssistantEdges(net.State(), p)|
  {
    var d := net.vertexes[p].destinationEdges;
    DestinationEdgesIn(net.State(), p);
    EdgesInPrefixes(net.State(), d);
    acount := 0;
    var j := 0;
    while j < |d|
      invariant 0 <= j <= |d|
      invariant acount == |Select(net.State(), d[..j], true)|
    {
      assert d[..j + 1][..j] == d[..j];
      assert d[j] in d;
      var child := net.vertexes[net.edges[d[j]].toVertex];
      if IsAssistant(child.node) {
        acount := acount + 1;
      }
      j := j + 1;
    }
    assert d[..|d|] == d;
  }

  /** The second loop: split the destination edges into assistant and regular child edges. */
  method PartitionEdges(net: LayoutNetwork, p: VertexId) returns (asstedges: seq<EdgeId>, childedges: seq<EdgeId>)
    requires Wf(net.State()) && p < |net.vertexes|
    ensures asstedges == AssistantEdges(net.State(), p)
    ensures childedges == ChildEdges(net.State(), p)
  {
    var d := net.vertexes[p].destinationEdges;
    DestinationEdgesIn(net.State(), p);
    EdgesInPrefixes(net.State(), d);
    asstedges, childedges := [], [];
    var j := 0;
    while j < |d|
      invariant 0 <= j <= |d|
      invariant asstedges == Select(net.State(), d[..j], true)
      invariant childedges == Select(net.State(), d[..j], false)
    {
      assert d[..j + 1][..j] == d[..j];
      assert d[j] in d;
      var e := d[j];
      if IsAssistant(net.vertexes[net.edges[e].toVertex].node) {
        asstedges := asstedges + [e];
      } else {
        childedges := childedges + [e];
      }
      j := j + 1;
    }
    assert d[..|d|] == d;
  }

  /** `parent.deleteDestinationEdge(e)` for each edge of `es`. */
  method DeleteDestinationEdges(net: LayoutNetwork, p: VertexId, es: seq<EdgeId>)
    requires p < |net.vertexes|
    modifies net
    ensures net.edges == old(net.edges) && |net.vertexes| == |old(net.vertexes)|
    ensures net.vertexes == old(net.vertexes)[p := old(net.vertexes)[p].(destinationEdges :=
              net.vertexes[p].destinationEdges)]
    ensures forall x :: x in net.vertexes[p].destinationEdges <==>
              x in old(net.vertexes)[p].destinationEdges && x !in es
  {
    var j := 0;
    while j < |es|
      invariant 0 <= j <= |es|
      invariant net.edges == old(net.edges) && |net.vertexes| == |old(net.vertexes)|
      invariant net.vertexes == old(net.vertexes)[p := old(net.vertexes)[p].(destinationEdges :=
                  net.vertexes[p].destinationEdges)]
      invariant forall x :: x in net.vertexes[p].destinationEdges <==>
                  x in old(net.vertexes)[p].destinationEdges && x !in es[..j]
    {
      assert es[..j + 1] == es[..j] + [es[j]];
      net.DeleteDestinationEdge(p, es[j]);
      j := j + 1;
    }
    assert es[..|es|] == es;
  }

  /** `parent.addDestinationEdge(e)` for each edge of `es`, none of which it has yet. */
  method AddDestinationEdges(net: LayoutNetwork, p: VertexId, es: seq<EdgeId>)
    requires p < |net.vertexes| && NoDuplicates(es)
    requires forall x | x in es :: x !in net.vertexes[p].destinationEdges
    modifies net
    ensures net.edges == old(net.edges)
    ensures net.vertexes == old(net.vertexes)[p := old(net.vertexes)[p].(destinationEdges :=
              old(net.vertexes)[p].destinationEdges + es)]
  {
    ghost var d := net.vertexes[p].destinationEdges;
    var j := 0;
    while j < |es|
      invariant 0 <= j <= |es|
      invariant net.edges == old(net.edges) && |net.vertexes| == |old(net.vertexes)|
      invariant net.vertexes[p] == old(net.vertexes)[p].(destinationEdges := d + es[..j])
      invariant forall v | 0 <= v < |net.vertexes| && v != p :: net.vertexes[v] == old(net.vertexes)[v]
    {
      assert es[j] !in es[..j];
      assert es[j] !in d + es[..j];
      assert d + es[..j + 1] == d + es[..j] + [es[j]];
      net.AddDestinationEdge(p, es[j]);
      j := j + 1;
    }
    assert es[..|es|] == es;
    assert net.vertexes == old(net.vertexes)[p := old(net.vertexes)[p].(destinationEdges := d + es)];
  }

  /** The reparenting loop: `ce.fromVertex = subst; subst.addDestinationEdge(ce)` for each regular child edge. */
  method MoveChildEdges(net: LayoutNetwork, subst: VertexId, es: seq<EdgeId>)
    requires subst < |net.vertexes| && NoDuplicates(es) && net.vertexes[subst].destinationEdges == []
    requires forall x | x in es :: x < |net.edges|
    modifies net
    ensures net.edges == MoveEdges(old(net.edges), es, subst)
    ensures net.vertexes == old(net.vertexes)[subst := old(net.vertexes)[subst].(destinationEdges := es)]
  {
    var j := 0;
    while j < |es|
      invariant 0 <= j <= |es|
      invariant net.edges == MoveEdges(old(net.edges), es[..j], subst)
      invariant net.vertexes == old(net.vertexes)[subst := old(net.vertexes)[subst].(destinationEdges := es[..j])]
    {
      assert es[j] !in es[..j];
      assert es[..j + 1] == es[..j] + [es[j]];
      assert es[j] in es;
      net.SetFromVertex(es[j], subst);
      net.AddDestinationEdge(subst, es[j]);
      j := j + 1;
      assert net.edges == MoveEdges(old(net.edges), es[..j], subst);
    }
    assert es[..|es|] == es;
  }

  /** The two deleting loops: `parent` is left without destination edges. */
  method DetachChildren(net: LayoutNetwork, parent: VertexId, asstedges: seq<EdgeId>, childedges: seq<EdgeId>)
    requires parent < |net.vertexes|
    requires forall x | x in net.vertexes[parent].destinationEdges :: x in asstedges || x in childedges
    modifies net
    ensures net.edges == old(net.edges)
    ensures net.vertexes == old(net.vertexes)[parent := old(net.vertexes)[parent].(destinationEdges := [])]
  {
    DeleteDestinationEdges(net, parent, asstedges);
    DeleteDestinationEdges(net, parent, childedges);
    NoMembersEmpty(net.vertexes[parent].destinationEdges);
  }

  /** Moving edges below `|es|` is not affected by edges appended after them. */
  lemma MoveEdgesAppend(es: seq<TreeEdge>, moved: seq<EdgeId>, subst: VertexId, x: TreeEdge)
    requires forall e | e in moved :: e < |es|
    ensures MoveEdges(es + [x], moved, subst) == MoveEdges(es, moved, subst) + [x]
  {
    assert |es| !in moved;
    assert (es + [x])[..|es|] == es;
  }

  /** Replacing an element and appending one commute. */
  lemma UpdateAppend<T>(a: seq<T>, p: nat, y: T, x: T)
    requires p < |a|
    ensures (a + [x])[p := y] == a[p := y] + [x]
  {
  }

  /**
   * For an odd number of assistants: a dummy vertex without a node, linked
   * from `parent` with the first assistant's link, before anything else.
   */
  method AddDummy(net: LayoutNetwork, ghost s: Network, parent: VertexId, link: Option<LinkId>)
    requires parent < |s.vertexes| && net.edges == s.edges
    requires net.vertexes == s.vertexes[parent := s.vertexes[parent].(destinationEdges := [])]
    modifies net
    ensures net.vertexes == (s.vertexes + [TreeVertex(None, [])])[parent :=
              s.vertexes[parent].(destinationEdges := [|s.edges|])]
    ensures net.edges == s.edges + [TreeEdge(parent, |s.vertexes|, link)]
  {
    var dummy := net.CreateVertex();
    var first := net.LinkVertexes(parent, dummy, link);
    assert WithEdge([], first) == [first];
  }

  /**
   * The assistant edges go back after the edges `lead` already there, and
   * a new substitute vertex, linked last, takes over the regular child edges.
   */
  method AttachSubst(net: LayoutNetwork, ghost vs: seq<TreeVertex>, ghost es: seq<TreeEdge>,
                     parent: VertexId, ghost lead: seq<EdgeId>, asstedges: seq<EdgeId>, childedges: seq<EdgeId>)
    requires parent < |vs| && NoDuplicates(asstedges) && NoDuplicates(childedges)
    requires forall x | x in lead :: x < |es| && x !in asstedges
    requires forall x | x in asstedges :: x < |es|
    requires forall x | x in childedges :: x < |es|
    requires net.edges == es && net.vertexes == vs[parent := vs[parent].(destinationEdges := lead)]
    modifies net
    ensures net.vertexes == vs[parent := vs[parent].(destinationEdges := lead + asstedges + [|es|])]
                            + [TreeVertex(None, childedges)]
    ensures net.edges == MoveEdges(es, childedges, |vs|) + [TreeEdge(parent, |vs|, None)]
  {
    AddDestinationEdges(net, parent, asstedges);
    assert net.vertexes == vs[parent := vs[parent].(destinationEdges := lead + asstedges)];
    var subst := net.CreateVertex();
    MoveChildEdges(net, subst, childedges);
    var last := net.LinkVertexes(parent, subst, None);
    assert last !in lead + asstedges;
  }

  /**
   * The rest of the body for an odd number of assistants: the dummy
   * child with the first assistant's link, then the assistants, then the
   * substitute vertex.
   */
  method ArrangeOdd(net: LayoutNetwork, ghost s: Network, parent: VertexId,
                    asstedges: seq<EdgeId>, childedges: seq<EdgeId>)
    requires parent < |s.vertexes| && asstedges != [] && asstedges[0] < |s.edges|
    requires NoDuplicates(asstedges) && NoDuplicates(childedges)
    requires forall x | x in asstedges :: x < |s.edges|
    requires forall x | x in childedges :: x < |s.edges|
    requires net.edges == s.edges
    requires net.vertexes == s.vertexes[parent := s.vertexes[parent].(destinationEdges := [])]
    modifies net
    ensures var n, m := |s.vertexes|, |s.edges|;
            net.vertexes == s.vertexes[parent := s.vertexes[parent].(destinationEdges :=
                              [m] + asstedges + [m + 1])]
                            + [TreeVertex(None, []), TreeVertex(None, childedges)]
    ensures var n, m := |s.vertexes|, |s.edges|;
            net.edges == MoveEdges(s.edges, childedges, n + 1)
                         + [TreeEdge(parent, n, s.edges[asstedges[0]].link), TreeEdge(parent, n + 1, None)]
  {
    ghost var n, m := |s.vertexes|, |s.edges|;
    ghost var vp := s.vertexes[parent];
    AddDummy(net, s, parent, net.edges[asstedges[0]].link);
    ghost var de := TreeEdge(parent, n, s.edges[asstedges[0]].link);
    ghost var vs := s.vertexes + [TreeVertex(None, [])];
    assert vs[parent] == vp;
    AttachSubst(net, vs, s.edges + [de], parent, [m], asstedges, childedges);
    UpdateAppend(s.vertexes, parent, vp.(destinationEdges := [m] + asstedges + [m + 1]), TreeVertex(None, []));
    MoveEdgesAppend(s.edges, childedges, n + 1, de);
  }

  /** Everything after the deleting loops, for a vertex with assistants. */
  method AttachArranged(net: LayoutNetwork, ghost s: Network, parent: VertexId,
                        acount: nat, asstedges: seq<EdgeId>, childedges: seq<EdgeId>)
    requires Wf(s) && parent < |s.vertexes|
    requires acount == |asstedges| > 0
    requires asstedges == AssistantEdges(s, parent) && childedges == ChildEdges(s, parent)
    requires net.edges == s.edges
    requires net.vertexes == s.vertexes[parent := s.vertexes[parent].(destinationEdges := [])]
    modifies net
    ensures net.State() == RewriteVertex(s, parent)
  {
    PartitionFacts(s, parent);
    if acount % 2 == 1 {
      assert asstedges[0] in asstedges;
      ArrangeOdd(net, s, parent, asstedges, childedges);
      RewriteOdd(s, parent);
    } else {
      AttachSubst(net, s.vertexes, s.edges, parent, [], asstedges, childedges);
      assert [] + asstedges == asstedges;
      RewriteEven(s, parent);
    }
  }

  /** The body of `makeNetwork`'s loop, for the vertex `parent`. */
  method RewriteParent(net: LayoutNetwork, parent: VertexId)
    requires Wf(net.State()) && parent < |net.vertexes|
    modifies net
    ensures net.State() == RewriteVertex(old(net.State()), parent)
  {
    ghost var s := net.State();
    var acount := CountAssistants(net, parent);
    if acount == 0 {
      return;
    }
    var asstedges, childedges := PartitionEdges(net, parent);
    PartitionFacts(s, parent);
    DetachChildren(net, parent, asstedges, childedges);
    AttachArranged(net, s, parent, acount, asstedges, childedges);
  }

  /**
   * `makeNetwork`: every vertex of the network the base layout built is
   * visited once; those with assistant children are arranged for the side
   * layout and all others, with their edges, are left as they were.
   */
  method MakeNetwork(net: LayoutNetwork)
    requires Wf(net.State())
    modifies net
    ensures PassInvariant(old(net.State()), net.State(), |old(net.vertexes)|)
  {
    ghost var s := net.State();
    var count := |net.vertexes|;
    var i := 0;
    while i < count
      invariant 0 <= i <= count
      invariant PassInvariant(s, net.State(), i)
    {
      ghost var t := net.State();
      PassStep(s, t, i);
      RewriteParent(net, i);
      i := i + 1;
    }
  }

  /** The values of `go.TreeLayout`'s `Alignment` enumeration. */
  datatype Alignment =
    | AlignmentCenterChildren | AlignmentCenterSubtrees | AlignmentStart | AlignmentEnd
    | AlignmentBus | AlignmentBusBranching | AlignmentTopLeftBus | AlignmentBottomRightBus

  /** The per-vertex layout values that `assignTreeVertexValues` may set. */
  datatype VertexValues = VertexValues(alignment: Alignment, nodeSpacing: int, layerSpacing: int)

  /**
   * `assignTreeVertexValues(v)`, given `v.node`, the nodes of `v.children`
   * and the values `v` has: a vertex with any assistant child gets bus
   * alignment and a node spacing of 50; otherwise a vertex without a node
   * and with children (a substitute) gets a layer spacing of 0; otherwise
   * nothing changes.
   */
  method AssignTreeVertexValues(node: Option<Employee>, children: seq<Option<Employee>>, v: VertexValues)
    returns (r: VertexValues)
    ensures AnyAssistant(children) ==> r == v.(alignment := AlignmentBus, nodeSpacing := 50)
    ensures !AnyAssistant(children) && node.None? && |children| > 0 ==> r == v.(layerSpacing := 0)
    ensures !AnyAssistant(children) && !(node.None? && |children| > 0) ==> r == v
  {
    var any := false;
    var i := 0;
    while i < |children|
      invariant 0 <= i <= |children|
      invariant !any ==> forall j | 0 <= j < i :: !IsAssistant(children[j])
      invariant any ==> AnyAssistant(children)
      invariant any ==> i < |children|
    {
      if IsAssistant(children[i]) {
        any := true;
        break;
      }
      i := i + 1;
    }
    r := v;
    if any {
      r := r.(alignment := AlignmentBus);
      r := r.(nodeSpacing := 50);
    } else if node.None? && |children| > 0 {
      r := r.(layerSpacing := 0);
    }
  }
}
