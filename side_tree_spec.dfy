/**
 * The layout network that `SideTreeLayout` rewrites, as values: vertexes
 * and edges are numbered by their position, each vertex has its node (none
 * for vertexes the layout adds) and its ordered set of outgoing
 * (destination) edges, and each edge knows its two ends and its diagram
 * link (none for edges the layout adds).
 *
 * `RewriteVertex` states what the body of `makeNetwork`'s loop does to one
 * vertex; the lemmas in side_tree_lemmas.dfy say what the whole pass over
 * the original vertexes means for the tree.
 */
module SideTreeSpec {
  import opened Wrappers
  import opened OrgModel

  type VertexId = nat
  type EdgeId = nat
  /** A diagram link, by an identity of its own. */
  type LinkId = nat

  datatype TreeVertex = TreeVertex(node: Option<Employee>, destinationEdges: seq<EdgeId>)
  datatype TreeEdge = TreeEdge(fromVertex: VertexId, toVertex: VertexId, link: Option<LinkId>)
  datatype Network = Network(vertexes: seq<TreeVertex>, edges: seq<TreeEdge>)

  predicate NoDuplicates(s: seq<EdgeId>) {
    forall i, j | 0 <= i < j < |s| :: s[i] != s[j]
  }

  /** Every edge of `es` is numbered below `m`. */
  ghost predicate Below(es: seq<EdgeId>, m: nat) {
    forall e | e in es :: e < m
  }

  /**
   * Every edge joins two vertexes of the network, every destination edge
   * of a vertex is an edge that starts there, and no vertex lists an edge
   * twice (destination edges form a set).
   */
  ghost predicate Wf(net: Network) {
    (forall e | 0 <= e < |net.edges| ::
       net.edges[e].fromVertex < |net.vertexes| && net.edges[e].toVertex < |net.vertexes|) &&
    (forall v | 0 <= v < |net.vertexes| :: NoDuplicates(net.vertexes[v].destinationEdges)) &&
    (forall v | 0 <= v < |net.vertexes| :: Below(net.vertexes[v].destinationEdges, |net.edges|)) &&
    (forall v, e | 0 <= v < |net.vertexes| && e in net.vertexes[v].destinationEdges && e < |net.edges| ::
       net.edges[e].fromVertex == v)
  }

  /** All of `es` are edges of the network with a target in it. */
  ghost predicate EdgesIn(net: Network, es: seq<EdgeId>) {
    (forall e: EdgeId | e in es :: e < |net.edges|) &&
    (forall e: EdgeId | e in es && e < |net.edges| :: net.edges[e].toVertex < |net.vertexes|)
  }

  lemma DestinationEdgesIn(net: Network, v: VertexId)
    requires Wf(net) && v < |net.vertexes|
    ensures EdgesIn(net, net.vertexes[v].destinationEdges)
  {
  }

  /** A non-empty list has its first element as a member. */
  lemma FirstIsMember(s: seq<EdgeId>)
    requires s != []
    ensures s[0] in s
  {
  }

  /** A list with no members is empty. */
  lemma NoMembersEmpty(s: seq<EdgeId>)
    requires forall x :: x !in s
    ensures s == []
  {
    if s != [] {
      FirstIsMember(s);
      assert false;
    }
  }

  lemma EdgesInPrefixes(net: Network, es: seq<EdgeId>)
    requires EdgesIn(net, es)
    ensures forall j | 0 <= j <= |es| :: EdgesIn(net, es[..j])
  {
    forall j | 0 <= j <= |es| ensures EdgesIn(net, es[..j]) {
      var pre := es[..j];
      forall e: EdgeId | e in pre ensures e < |net.edges| && net.edges[e].toVertex < |net.vertexes| {
        assert e in es;
      }
    }
  }

  /** isAssistant(e.toVertex.node) */
  predicate LeadsToAssistant(net: Network, e: EdgeId)
    requires e < |net.edges| && net.edges[e].toVertex < |net.vertexes|
  {
    IsAssistant(net.vertexes[net.edges[e].toVertex].node)
  }

  /** The edges of `es`, in their order, that lead to an assistant (or, for `false`, do not). */
  function Select(net: Network, es: seq<EdgeId>, assistants: bool): (r: seq<EdgeId>)
    requires EdgesIn(net, es)
    ensures |r| <= |es|
    ensures forall e | e in r :: e in es && LeadsToAssistant(net, e) == assistants
    ensures forall e | e in es && LeadsToAssistant(net, e) == assistants :: e in r
    ensures NoDuplicates(es) ==> NoDuplicates(r)
    decreases |es|
  {
    if es == [] then []
    else
      var front, last := es[..|es| - 1], es[|es| - 1];
      assert last in es;
      assert forall e | e in es :: e in front || e == last;
      forall e: EdgeId | e in front
        ensures e in es && e < |net.edges| && net.edges[e].toVertex < |net.vertexes|
      {
        assert e in es;
      }
      var init := Select(net, front, assistants);
      if LeadsToAssistant(net, last) == assistants then init + [last] else init
  }

  /** The assistant edges of `v`: `asstedges`. */
  function AssistantEdges(net: Network, v: VertexId): seq<EdgeId>
    requires Wf(net) && v < |net.vertexes|
  {
    DestinationEdgesIn(net, v);
    Select(net, net.vertexes[v].destinationEdges, true)
  }

  /** The regular child edges of `v`: `childedges`. */
  function ChildEdges(net: Network, v: VertexId): seq<EdgeId>
    requires Wf(net) && v < |net.vertexes|
  {
    DestinationEdgesIn(net, v);
    Select(net, net.vertexes[v].destinationEdges, false)
  }

  /** The nodes of the children of `v`, in order: what `v.children[i].node` reads. */
  function ChildNodes(net: Network, v: VertexId): seq<Option<Employee>>
    requires Wf(net) && v < |net.vertexes|
  {
    var d := net.vertexes[v].destinationEdges;
    DestinationEdgesIn(net, v);
    seq(|d|, i requires 0 <= i < |d| => assert d[i] in d; net.vertexes[net.edges[d[i]].toVertex].node)
  }

  /** Some child's node is an assistant. */
  ghost predicate AnyAssistant(children: seq<Option<Employee>>) {
    exists j | 0 <= j < |children| :: IsAssistant(children[j])
  }

  /** The link of the first assistant edge, which the dummy edge copies. */
  function FirstAssistantLink(net: Network, p: VertexId): Option<LinkId>
    requires Wf(net) && p < |net.vertexes| && AssistantEdges(net, p) != []
  {
    PartitionFacts(net, p);
    assert AssistantEdges(net, p)[0] in AssistantEdges(net, p);
    net.edges[AssistantEdges(net, p)[0]].link
  }

  /** `ce.fromVertex = subst` for every edge of `moved`. */
  function MoveEdges(es: seq<TreeEdge>, moved: seq<EdgeId>, subst: VertexId): (r: seq<TreeEdge>)
    ensures |r| == |es|
    ensures forall e | 0 <= e < |es| :: r[e] == if e in moved then es[e].(fromVertex := subst) else es[e]
    decreases |es|
  {
    if es == [] then []
    else
      var i := |es| - 1;
      MoveEdges(es[..i], moved, subst) + [if i in moved then es[i].(fromVertex := subst) else es[i]]
  }

  /**
   * The loop body of `makeNetwork` for the vertex `p`.  When `p` has
   * assistant children, its destination edges become: a new edge to a new
   * dummy vertex when their number is odd, then the assistant edges in
   * their order, then a new edge to a new substitute vertex, which takes
   * over the regular child edges in their order.
   */
  function RewriteVertex(net: Network, p: VertexId): (r: Network)
    requires Wf(net) && p < |net.vertexes|
    ensures |r.vertexes| >= |net.vertexes| && |r.edges| >= |net.edges|
    ensures AssistantEdges(net, p) == [] ==> r == net
  {
    var A := AssistantEdges(net, p);
    var C := ChildEdges(net, p);
    var n, m := |net.vertexes|, |net.edges|;
    var vp := net.vertexes[p];
    if |A| == 0 then net
    else if |A| % 2 == 1 then
      // an odd number of assistants: a dummy child comes first
      Network(
        net.vertexes[p := vp.(destinationEdges := [m] + A + [m + 1])]
          + [TreeVertex(None, []), TreeVertex(None, C)],
        MoveEdges(net.edges, C, n + 1) + [TreeEdge(p, n, FirstAssistantLink(net, p)), TreeEdge(p, n + 1, None)])
    else
      Network(
        net.vertexes[p := vp.(destinationEdges := A + [m])] + [TreeVertex(None, C)],
        MoveEdges(net.edges, C, n) + [TreeEdge(p, n, None)])
  }

  /** The rewrite of a vertex with an odd number of assistants, spelled out. */
  lemma RewriteOdd(net: Network, p: VertexId)
    requires Wf(net) && p < |net.vertexes| && |AssistantEdges(net, p)| % 2 == 1
    ensures var A, C := AssistantEdges(net, p), ChildEdges(net, p);
            var n, m := |net.vertexes|, |net.edges|;
            RewriteVertex(net, p) == Network(
              net.vertexes[p := net.vertexes[p].(destinationEdges := [m] + A + [m + 1])]
                + [TreeVertex(None, []), TreeVertex(None, C)],
              MoveEdges(net.edges, C, n + 1) + [TreeEdge(p, n, FirstAssistantLink(net, p)), TreeEdge(p, n + 1, None)])
  {
  }

  /** The rewrite of a vertex with an even, non-zero number of assistants, spelled out. */
  lemma RewriteEven(net: Network, p: VertexId)
    requires Wf(net) && p < |net.vertexes| && AssistantEdges(net, p) != [] && |AssistantEdges(net, p)| % 2 == 0
    ensures var A, C := AssistantEdges(net, p), ChildEdges(net, p);
            var n, m := |net.vertexes|, |net.edges|;
            RewriteVertex(net, p) == Network(
              net.vertexes[p := net.vertexes[p].(destinationEdges := A + [m])] + [TreeVertex(None, C)],
              MoveEdges(net.edges, C, n) + [TreeEdge(p, n, None)])
  {
  }

  /**
   * Rewriting `p` touches no other vertex of the network, keeps every
   * vertex's node, and changes only edges that started at `p`.
   */
  lemma RewriteVertexFrame(net: Network, p: VertexId)
    requires Wf(net) && p < |net.vertexes|
    ensures var r := RewriteVertex(net, p);
            (forall v | 0 <= v < |net.vertexes| && v != p :: r.vertexes[v] == net.vertexes[v]) &&
            (forall v | 0 <= v < |net.vertexes| :: r.vertexes[v].node == net.vertexes[v].node) &&
            (forall e | 0 <= e < |net.edges| && e !in net.vertexes[p].destinationEdges ::
               r.edges[e] == net.edges[e])
  {
    if AssistantEdges(net, p) != [] {
      LayoutOfOldEdges(net, p);
      PartitionFacts(net, p);
    }
  }

  /** The substitute vertex `p`'s rewrite adds: last, after the dummy if there is one. */
  function SubstVertex(net: Network, p: VertexId): VertexId
    requires Wf(net) && p < |net.vertexes|
  {
    |net.vertexes| + |AssistantEdges(net, p)| % 2
  }

  /** The edge from `p` to its substitute vertex. */
  function SubstEdge(net: Network, p: VertexId): EdgeId
    requires Wf(net) && p < |net.vertexes|
  {
    |net.edges| + |AssistantEdges(net, p)| % 2
  }

  /** The destination edges `p`'s rewrite gives it. */
  function RewrittenDestinations(net: Network, p: VertexId): seq<EdgeId>
    requires Wf(net) && p < |net.vertexes|
  {
    (if |AssistantEdges(net, p)| % 2 == 1 then [|net.edges|] else [])
      + AssistantEdges(net, p) + [SubstEdge(net, p)]
  }

  lemma LayoutOfParent(net: Network, p: VertexId)
    requires Wf(net) && p < |net.vertexes| && AssistantEdges(net, p) != []
    ensures RewriteVertex(net, p).vertexes[p] ==
              net.vertexes[p].(destinationEdges := RewrittenDestinations(net, p))
  {
    var A, C := AssistantEdges(net, p), ChildEdges(net, p);
    var n, m := |net.vertexes|, |net.edges|;
    var vp := net.vertexes[p];
    if |A| % 2 == 1 {
      var d := [m] + A + [m + 1];
      assert RewriteVertex(net, p).vertexes ==
               net.vertexes[p := vp.(destinationEdges := d)] + [TreeVertex(None, []), TreeVertex(None, C)];
      assert d == RewrittenDestinations(net, p);
    } else {
      var d := A + [m];
      assert RewriteVertex(net, p).vertexes == net.vertexes[p := vp.(destinationEdges := d)] + [TreeVertex(None, C)];
      assert d == RewrittenDestinations(net, p);
    }
  }

  lemma LayoutOfNewParts(net: Network, p: VertexId)
    requires Wf(net) && p < |net.vertexes| && AssistantEdges(net, p) != []
    ensures |RewriteVertex(net, p).vertexes| == SubstVertex(net, p) + 1
    ensures |RewriteVertex(net, p).edges| == SubstEdge(net, p) + 1
    ensures RewriteVertex(net, p).vertexes[SubstVertex(net, p)] == TreeVertex(None, ChildEdges(net, p))
    ensures RewriteVertex(net, p).edges[SubstEdge(net, p)] == TreeEdge(p, SubstVertex(net, p), None)
    ensures |AssistantEdges(net, p)| % 2 == 1 ==>
              RewriteVertex(net, p).vertexes[|net.vertexes|] == TreeVertex(None, []) &&
              RewriteVertex(net, p).edges[|net.edges|] ==
                TreeEdge(p, |net.vertexes|, FirstAssistantLink(net, p))
  {
  }

  lemma LayoutOfOldEdges(net: Network, p: VertexId)
    requires Wf(net) && p < |net.vertexes| && AssistantEdges(net, p) != []
    ensures forall e | 0 <= e < |net.edges| ::
              RewriteVertex(net, p).edges[e] ==
                if e in ChildEdges(net, p) then net.edges[e].(fromVertex := SubstVertex(net, p))
                else net.edges[e]
  {
  }

  /** The assistant and the regular child edges of `p` split its destination edges. */
  lemma PartitionFacts(net: Network, p: VertexId)
    requires Wf(net) && p < |net.vertexes|
    ensures var d, A, C := net.vertexes[p].destinationEdges, AssistantEdges(net, p), ChildEdges(net, p);
            (forall e | e in d :: e < |net.edges| && net.edges[e].fromVertex == p) &&
            (forall e | e in A :: e in d && e !in C) &&
            (forall e | e in C :: e in d && e !in A) &&
            (forall e | e in d :: e in A || e in C) &&
            NoDuplicates(A) && NoDuplicates(C)
  {
    DestinationEdgesIn(net, p);
  }

  lemma RewriteVertexEnds(net: Network, p: VertexId)
    requires Wf(net) && p < |net.vertexes|
    ensures var r := RewriteVertex(net, p);
            forall e | 0 <= e < |r.edges| ::
              r.edges[e].fromVertex < |r.vertexes| && r.edges[e].toVertex < |r.vertexes|
  {
    if AssistantEdges(net, p) != [] {
      LayoutOfNewParts(net, p);
      LayoutOfOldEdges(net, p);
    }
  }

  lemma RewriteVertexNoDuplicates(net: Network, p: VertexId)
    requires Wf(net) && p < |net.vertexes|
    ensures var r := RewriteVertex(net, p);
            forall v | 0 <= v < |r.vertexes| :: NoDuplicates(r.vertexes[v].destinationEdges)
  {
    var A := AssistantEdges(net, p);
    if A != [] {
      LayoutOfParent(net, p);
      var substEdge := SubstEdge(net, p);
      PartitionFacts(net, p);
      var r := RewriteVertex(net, p);
      var m := |net.edges|;
      var d' := r.vertexes[p].destinationEdges;
      forall i, j | 0 <= i < j < |d'| ensures d'[i] != d'[j] {
        if |A| % 2 == 1 && i == 0 {
          assert d'[j] in A || d'[j] == substEdge;
        } else {
          assert d'[i] in A;
        }
      }
    }
  }

  lemma RewriteVertexStarts(net: Network, p: VertexId)
    requires Wf(net) && p < |net.vertexes|
    ensures var r := RewriteVertex(net, p);
            forall v, e | 0 <= v < |r.vertexes| && e in r.vertexes[v].destinationEdges ::
              e < |r.edges| && r.edges[e].fromVertex == v
  {
    var A := AssistantEdges(net, p);
    if A != [] {
      LayoutOfParent(net, p);
      LayoutOfNewParts(net, p);
      LayoutOfOldEdges(net, p);
      var subst, substEdge := SubstVertex(net, p), SubstEdge(net, p);
      PartitionFacts(net, p);
      var r := RewriteVertex(net, p);
      var n, m := |net.vertexes|, |net.edges|;
      var C := ChildEdges(net, p);
      forall v, e | 0 <= v < |r.vertexes| && e in r.vertexes[v].destinationEdges
        ensures e < |r.edges| && r.edges[e].fromVertex == v
      {
        if v == p {
          assert e == m || e in A || e == substEdge;
        } else if v < n {
          assert e in net.vertexes[v].destinationEdges;
          assert e < m && net.edges[e].fromVertex == v;
          assert e !in C;
        } else if v == subst {
          assert e in C;
        }
      }
    }
  }

  /** Rewriting one vertex leaves a well-formed network. */
  lemma RewriteVertexWf(net: Network, p: VertexId)
    requires Wf(net) && p < |net.vertexes|
    ensures Wf(RewriteVertex(net, p)) && |RewriteVertex(net, p).vertexes| >= |net.vertexes|
  {
    RewriteVertexEnds(net, p);
    RewriteVertexNoDuplicates(net, p);
    RewriteVertexStarts(net, p);
  }
}
