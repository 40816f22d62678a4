/**
 * What `makeNetwork` does to the tree, stated against the network `s`
 * that the base `TreeLayout` built.  Every original vertex ends up either
 * `Unchanged` (it has no assistant children) or `Arranged`: its assistants
 * stay its direct children, an even number of them once a dummy is added,
 * and a substitute vertex without a node takes over its regular children
 * as its last child.  `PassInvariant` is what holds after the loop has
 * visited the vertexes 0 .. i-1, and `PassStep` is one more visit.
 */
module SideTreeLemmas {
  import opened Wrappers
  import opened OrgModel
  import opened SideTreeSpec

  /** Vertex `q` and its outgoing edges are as in `s`. */
  ghost predicate Unchanged(s: Network, t: Network, q: VertexId)
    requires q < |s.vertexes| && q < |t.vertexes|
  {
    t.vertexes[q] == s.vertexes[q] &&
    EdgesKept(s, t, s.vertexes[q].destinationEdges)
  }

  /** Every edge of `es` is an edge of both networks, the same in each. */
  ghost predicate EdgesKept(s: Network, t: Network, es: seq<EdgeId>) {
    forall e | e in es :: e < |s.edges| && e < |t.edges| && t.edges[e] == s.edges[e]
  }

  /**
   * Vertex `p`, which has assistant children in `s`, as `makeNetwork`
   * leaves it in `t`: a dummy edge first when the number of assistants is
   * odd, then the assistant edges of `s` in their order and untouched, then
   * a layout-only edge to a new substitute vertex that has no node and owns
   * exactly the regular child edges, now starting from it.
   */
  ghost predicate Arranged(s: Network, t: Network, p: VertexId)
    requires Wf(s) && p < |s.vertexes| && p < |t.vertexes| && AssistantEdges(s, p) != []
  {
    ArrangedParent(s, t, p) && ArrangedSubstitute(s, t, p)
  }

  /** The destination edges of `p` in `t`: dummy, assistants, substitute. */
  ghost predicate ArrangedParent(s: Network, t: Network, p: VertexId)
    requires Wf(s) && p < |s.vertexes| && p < |t.vertexes| && AssistantEdges(s, p) != []
  {
    var A := AssistantEdges(s, p);
    var d := t.vertexes[p].destinationEdges;
    var k := |A| % 2;
    t.vertexes[p].node == s.vertexes[p].node &&
    |d| == k + |A| + 1 &&
    d[k..|d| - 1] == A &&
    EdgesKept(s, t, A) &&
    d[|d| - 1] < |t.edges| &&
    var subst := t.edges[d[|d| - 1]].toVertex;
    t.edges[d[|d| - 1]] == TreeEdge(p, subst, None) &&
    |s.vertexes| <= subst < |t.vertexes| &&
    (k == 1 ==>
       d[0] < |t.edges| &&
       var dummy := t.edges[d[0]].toVertex;
       t.edges[d[0]] == TreeEdge(p, dummy, FirstAssistantLink(s, p)) &&
       |s.vertexes| <= dummy < subst &&
       t.vertexes[dummy] == TreeVertex(None, []))
  }

  /** The substitute, the last child of `p` in `t`, owns the regular child edges of `s`. */
  ghost predicate ArrangedSubstitute(s: Network, t: Network, p: VertexId)
    requires Wf(s) && p < |s.vertexes| && p < |t.vertexes| && AssistantEdges(s, p) != []
  {
    var C := ChildEdges(s, p);
    var d := t.vertexes[p].destinationEdges;
    |d| > 0 && d[|d| - 1] < |t.edges| &&
    var subst := t.edges[d[|d| - 1]].toVertex;
    subst < |t.vertexes| &&
    t.vertexes[subst] == TreeVertex(None, C) &&
    (forall e | e in C :: e < |s.edges| && e < |t.edges| && t.edges[e] == s.edges[e].(fromVertex := subst))
  }

  /** Every original vertex keeps its node, and vertexes are only added. */
  ghost predicate NodesKept(s: Network, t: Network) {
    |s.vertexes| <= |t.vertexes| &&
    forall v | 0 <= v < |s.vertexes| :: t.vertexes[v].node == s.vertexes[v].node
  }

  /**
   * The loop of `makeNetwork` has visited the vertexes 0 .. i-1 of `s`:
   * those with assistants are arranged, all others are unchanged, and no
   * original vertex has lost its node.
   */
  ghost predicate PassInvariant(s: Network, t: Network, i: nat) {
    Wf(s) && Wf(t) && i <= |s.vertexes| && NodesKept(s, t) && |s.edges| <= |t.edges| &&
    (forall q | 0 <= q < |s.vertexes| && (i <= q || AssistantEdges(s, q) == []) :: Unchanged(s, t, q)) &&
    (forall q | 0 <= q < i && AssistantEdges(s, q) != [] :: Arranged(s, t, q)) &&
    NewVertexesInOrder(s, t, i) && CreatedCount(s, t, i) && UnlistedEdgesKept(s, t)
  }

  /** Some vertex of `s` lists edge `e` among its destination edges. */
  ghost predicate Listed(s: Network, e: EdgeId) {
    exists v | 0 <= v < |s.vertexes| :: e in s.vertexes[v].destinationEdges
  }

  /** An edge of `s` that no vertex lists is never touched by the pass. */
  ghost predicate UnlistedEdgesKept(s: Network, t: Network) {
    forall e | 0 <= e < |s.edges| && !Listed(s, e) :: e < |t.edges| && t.edges[e] == s.edges[e]
  }

  /** How many vertexes (and as many edges) visiting `q` creates: a substitute, and a dummy for an odd count. */
  function CreatedAt(s: Network, q: VertexId): nat
    requires Wf(s) && q < |s.vertexes|
  {
    if AssistantEdges(s, q) == [] then 0 else 1 + |AssistantEdges(s, q)| % 2
  }

  /** How many vertexes visiting the vertexes 0 .. i-1 creates. */
  function Created(s: Network, i: nat): nat
    requires Wf(s) && i <= |s.vertexes|
  {
    if i == 0 then 0 else Created(s, i - 1) + CreatedAt(s, i - 1)
  }

  /**
   * The network has grown by exactly the dummies and substitutes of the
   * vertexes visited so far: no other vertex or edge has been added.
   */
  ghost predicate CreatedCount(s: Network, t: Network, i: nat)
    requires Wf(s) && i <= |s.vertexes|
  {
    |t.vertexes| == |s.vertexes| + Created(s, i) && |t.edges| == |s.edges| + Created(s, i)
  }

  /**
   * Each visit creates its vertexes after all earlier ones: the new
   * vertexes of an earlier parent all come before those of a later one, so
   * no two parents share a dummy or a substitute.
   */
  ghost predicate NewVertexesInOrder(s: Network, t: Network, i: nat)
    requires Wf(s) && i <= |s.vertexes| <= |t.vertexes|
  {
    forall p, q | 0 <= p < q < i && AssistantEdges(s, p) != [] && AssistantEdges(s, q) != [] ::
      CreatedBefore(s, t, p, q)
  }

  /** The substitute of `p` comes before the first vertex created for `q`. */
  ghost predicate CreatedBefore(s: Network, t: Network, p: VertexId, q: VertexId)
    requires Wf(s) && p < |s.vertexes| <= |t.vertexes| && q < |s.vertexes|
  {
    LastChild(t, p) < (if |AssistantEdges(s, q)| % 2 == 1 then FirstChild(t, q) else LastChild(t, q))
  }

  /** The vertex that the last destination edge of `p` leads to (0 when there is none). */
  ghost function LastChild(t: Network, p: VertexId): VertexId
    requires p < |t.vertexes|
  {
    var d := t.vertexes[p].destinationEdges;
    if d != [] && d[|d| - 1] < |t.edges| then t.edges[d[|d| - 1]].toVertex else 0
  }

  /** The vertex that the first destination edge of `p` leads to (0 when there is none). */
  ghost function FirstChild(t: Network, p: VertexId): VertexId
    requires p < |t.vertexes|
  {
    var d := t.vertexes[p].destinationEdges;
    if d != [] && d[0] < |t.edges| then t.edges[d[0]].toVertex else 0
  }

  /** Selecting edges reads only whether each edge leads to an assistant. */
  lemma {:induction false} SelectAgrees(s: Network, t: Network, es: seq<EdgeId>, assistants: bool)
    requires EdgesIn(s, es) && EdgesIn(t, es)
    requires forall e | e in es :: LeadsToAssistant(t, e) == LeadsToAssistant(s, e)
    ensures Select(t, es, assistants) == Select(s, es, assistants)
    decreases |es|
  {
    if es != [] {
      var front, last := es[..|es| - 1], es[|es| - 1];
      assert last in es;
      forall e | e in front
        ensures e in es && e < |s.edges| && s.edges[e].toVertex < |s.vertexes| &&
                e < |t.edges| && t.edges[e].toVertex < |t.vertexes|
      {
        assert e in es;
      }
      SelectAgrees(s, t, front, assistants);
    }
  }

  /** An unchanged vertex has the same assistant and regular child edges as in `s`. */
  lemma UnchangedPartition(s: Network, t: Network, i: nat, q: VertexId)
    requires PassInvariant(s, t, i) && q < |s.vertexes| && Unchanged(s, t, q)
    ensures AssistantEdges(t, q) == AssistantEdges(s, q)
    ensures ChildEdges(t, q) == ChildEdges(s, q)
  {
    var d := s.vertexes[q].destinationEdges;
    DestinationEdgesIn(s, q);
    DestinationEdgesIn(t, q);
    forall e | e in d ensures LeadsToAssistant(t, e) == LeadsToAssistant(s, e) {
      assert t.edges[e] == s.edges[e];
      var to := s.edges[e].toVertex;
      assert t.vertexes[to].node == s.vertexes[to].node;
    }
    SelectAgrees(s, t, d, true);
    SelectAgrees(s, t, d, false);
  }

  /** An edge leaving a vertex other than `p` is not one that `RewriteVertex(t, p)` changes. */
  lemma EdgeElsewhere(t: Network, p: VertexId, e: EdgeId)
    requires Wf(t) && p < |t.vertexes| && e < |t.edges| && t.edges[e].fromVertex != p
    ensures e !in t.vertexes[p].destinationEdges
    ensures RewriteVertex(t, p).edges[e] == t.edges[e]
  {
    RewriteVertexFrame(t, p);
  }

  /** Visiting another vertex keeps an unchanged vertex unchanged. */
  lemma UnchangedFrame(s: Network, t: Network, p: VertexId, q: VertexId)
    requires Wf(t) && p < |t.vertexes| && q < |s.vertexes| && q < |t.vertexes| && p != q
    requires Wf(s) && Unchanged(s, t, q)
    ensures Unchanged(s, RewriteVertex(t, p), q)
  {
    var t' := RewriteVertex(t, p);
    RewriteVertexFrame(t, p);
    forall e | e in s.vertexes[q].destinationEdges
      ensures e < |s.edges| && e < |t'.edges| && t'.edges[e] == s.edges[e]
    {
      assert e in t.vertexes[q].destinationEdges;
      assert e < |t.edges| && t.edges[e].fromVertex == q;
      EdgeElsewhere(t, p, e);
    }
  }

  /** `ArrangedParent` reads only `p`, its two new vertexes and its destination edges. */
  lemma ParentCarriesOver(s: Network, t: Network, t': Network, q: VertexId)
    requires Wf(s) && Wf(t) && q < |s.vertexes| && |s.vertexes| <= |t.vertexes| <= |t'.vertexes|
    requires |t.edges| <= |t'.edges| && AssistantEdges(s, q) != [] && ArrangedParent(s, t, q)
    requires t'.vertexes[q] == t.vertexes[q]
    requires forall v | |s.vertexes| <= v < |t.vertexes| :: t'.vertexes[v] == t.vertexes[v]
    requires forall e | e in t.vertexes[q].destinationEdges :: t'.edges[e] == t.edges[e]
    ensures ArrangedParent(s, t', q)
  {
    var A := AssistantEdges(s, q);
    var d := t.vertexes[q].destinationEdges;
    var k := |A| % 2;
    assert d[|d| - 1] in d;
    assert t'.edges[d[|d| - 1]] == t.edges[d[|d| - 1]];
    forall e | e in A ensures e < |s.edges| && e < |t'.edges| && t'.edges[e] == s.edges[e] {
      var i :| 0 <= i < |A| && A[i] == e;
      assert d[k + i] == e;
    }
    if k == 1 {
      assert d[0] in d;
      assert t'.edges[d[0]] == t.edges[d[0]];
    }
  }

  /** `ArrangedSubstitute` reads only `p`'s last edge, the substitute and the regular child edges. */
  lemma SubstituteCarriesOver(s: Network, t: Network, t': Network, q: VertexId)
    requires Wf(s) && Wf(t) && q < |s.vertexes| && |s.vertexes| <= |t.vertexes| <= |t'.vertexes|
    requires |t.edges| <= |t'.edges| && AssistantEdges(s, q) != [] && ArrangedSubstitute(s, t, q)
    requires t'.vertexes[q] == t.vertexes[q]
    requires forall v | |s.vertexes| <= v < |t.vertexes| :: t'.vertexes[v] == t.vertexes[v]
    requires forall e | e in t.vertexes[q].destinationEdges :: t'.edges[e] == t.edges[e]
    requires forall e | e in ChildEdges(s, q) :: e < |t.edges| && t'.edges[e] == t.edges[e]
    requires |s.vertexes| <= t.edges[t.vertexes[q].destinationEdges[|t.vertexes[q].destinationEdges| - 1]].toVertex
    ensures ArrangedSubstitute(s, t', q)
  {
    var d := t.vertexes[q].destinationEdges;
    assert d[|d| - 1] in d;
  }

  /** Visiting another vertex keeps the destination edges of an arranged vertex. */
  lemma ParentFrame(s: Network, t: Network, p: VertexId, q: VertexId)
    requires Wf(s) && Wf(t) && p < |s.vertexes| && q < |s.vertexes| && p != q
    requires |s.vertexes| <= |t.vertexes| && AssistantEdges(s, q) != []
    requires ArrangedParent(s, t, q)
    ensures ArrangedParent(s, RewriteVertex(t, p), q)
  {
    var t' := RewriteVertex(t, p);
    RewriteVertexFrame(t, p);
    forall e | e in t.vertexes[q].destinationEdges ensures t'.edges[e] == t.edges[e] {
      EdgeElsewhere(t, p, e);
    }
    ParentCarriesOver(s, t, t', q);
  }

  /** Visiting another vertex keeps the substitute of an arranged vertex. */
  lemma SubstituteFrame(s: Network, t: Network, p: VertexId, q: VertexId)
    requires Wf(s) && Wf(t) && p < |s.vertexes| && q < |s.vertexes| && p != q
    requires |s.vertexes| <= |t.vertexes| && AssistantEdges(s, q) != []
    requires Arranged(s, t, q)
    ensures ArrangedSubstitute(s, RewriteVertex(t, p), q)
  {
    var t' := RewriteVertex(t, p);
    RewriteVertexFrame(t, p);
    assert ArrangedParent(s, t, q);
    forall e | e in t.vertexes[q].destinationEdges ensures t'.edges[e] == t.edges[e] {
      EdgeElsewhere(t, p, e);
    }
    forall e | e in ChildEdges(s, q) ensures e < |t.edges| && t'.edges[e] == t.edges[e] {
      EdgeElsewhere(t, p, e);
    }
    SubstituteCarriesOver(s, t, t', q);
  }

  /** Visiting another vertex keeps an arranged vertex arranged. */
  lemma ArrangedFrame(s: Network, t: Network, p: VertexId, q: VertexId)
    requires Wf(s) && Wf(t) && p < |s.vertexes| && q < |s.vertexes| && p != q
    requires |s.vertexes| <= |t.vertexes| && AssistantEdges(s, q) != []
    requires Arranged(s, t, q)
    ensures Arranged(s, RewriteVertex(t, p), q)
  {
    ParentFrame(s, t, p, q);
    SubstituteFrame(s, t, p, q);
  }

  /** Visiting a vertex with assistants gives it the destination edges of an arranged vertex. */
  lemma NewlyArrangedParent(s: Network, t: Network, i: nat)
    requires PassInvariant(s, t, i) && i < |s.vertexes| && AssistantEdges(s, i) != []
    ensures ArrangedParent(s, RewriteVertex(t, i), i)
  {
    assert Unchanged(s, t, i);
    UnchangedPartition(s, t, i, i);
    VisitedParentLayout(s, t, i);
  }

  /** The parent half of a visit, from the facts about `i` alone that the pass invariant gives. */
  lemma VisitedParentLayout(s: Network, t: Network, i: nat)
    requires Wf(s) && Wf(t) && NodesKept(s, t) && |s.edges| <= |t.edges| && i < |s.vertexes|
    requires AssistantEdges(s, i) != [] && Unchanged(s, t, i)
    requires AssistantEdges(t, i) == AssistantEdges(s, i)
    ensures ArrangedParent(s, RewriteVertex(t, i), i)
  {
    var t' := RewriteVertex(t, i);
    var A := AssistantEdges(s, i);
    LayoutOfParent(t, i);
    LayoutOfNewParts(t, i);
    LayoutOfOldEdges(t, i);
    PartitionFacts(s, i);
    var d := t'.vertexes[i].destinationEdges;
    var k := |A| % 2;
    assert d == RewrittenDestinations(t, i);
    assert d[k..|d| - 1] == A;
    assert d[|d| - 1] == SubstEdge(t, i);
    assert t.vertexes[i] == s.vertexes[i];
    assert EdgesKept(s, t, s.vertexes[i].destinationEdges);
    forall e | e in A ensures e < |s.edges| && e < |t'.edges| && t'.edges[e] == s.edges[e] {
      assert e in s.vertexes[i].destinationEdges;
    }
    if k == 1 {
      assert A[0] in A;
      assert FirstAssistantLink(t, i) == FirstAssistantLink(s, i);
      assert d[0] == |t.edges| && t'.edges[d[0]].toVertex == |t.vertexes| < SubstVertex(t, i);
    }
  }

  /** Visiting a vertex with assistants hands its regular child edges to the substitute. */
  lemma NewlyArrangedSubstitute(s: Network, t: Network, i: nat)
    requires PassInvariant(s, t, i) && i < |s.vertexes| && AssistantEdges(s, i) != []
    ensures ArrangedSubstitute(s, RewriteVertex(t, i), i)
  {
    assert Unchanged(s, t, i);
    UnchangedPartition(s, t, i, i);
    var t' := RewriteVertex(t, i);
    var C := ChildEdges(s, i);
    LayoutOfParent(t, i);
    LayoutOfNewParts(t, i);
    LayoutOfOldEdges(t, i);
    PartitionFacts(s, i);
    var d := t'.vertexes[i].destinationEdges;
    assert d == RewrittenDestinations(t, i);
    assert d[|d| - 1] == SubstEdge(t, i);
    assert EdgesKept(s, t, s.vertexes[i].destinationEdges);
    forall e | e in C
      ensures e < |s.edges| && e < |t'.edges| && t'.edges[e] == s.edges[e].(fromVertex := SubstVertex(t, i))
    {
      assert e in s.vertexes[i].destinationEdges;
    }
  }

  /** Visiting a vertex with assistants arranges it. */
  lemma NewlyArranged(s: Network, t: Network, i: nat)
    requires PassInvariant(s, t, i) && i < |s.vertexes| && AssistantEdges(s, i) != []
    ensures Arranged(s, RewriteVertex(t, i), i)
  {
    NewlyArrangedParent(s, t, i);
    NewlyArrangedSubstitute(s, t, i);
  }

  /** The vertexes created for `q` are read off `q`'s first and last destination edges. */
  lemma NewVertexesCarryOver(s: Network, t: Network, t': Network, q: VertexId)
    requires Wf(s) && Wf(t) && Wf(t') && NodesKept(s, t) && NodesKept(s, t') && q < |s.vertexes|
    requires AssistantEdges(s, q) != [] && ArrangedParent(s, t, q) && ArrangedParent(s, t', q)
    requires t'.vertexes[q] == t.vertexes[q]
    requires forall e | e in t.vertexes[q].destinationEdges :: t'.edges[e] == t.edges[e]
    ensures Substitute(s, t', q) == Substitute(s, t, q)
    ensures FirstNew(s, t', q) == FirstNew(s, t, q)
  {
    EndsCarryOver(t, t', q);
  }

  /** The first and last children of `q` depend only on `q` and its destination edges. */
  lemma EndsCarryOver(t: Network, t': Network, q: VertexId)
    requires q < |t.vertexes| && q < |t'.vertexes| && t'.vertexes[q] == t.vertexes[q]
    requires forall e | e in t.vertexes[q].destinationEdges :: e < |t.edges| && e < |t'.edges| && t'.edges[e] == t.edges[e]
    ensures LastChild(t', q) == LastChild(t, q) && FirstChild(t', q) == FirstChild(t, q)
  {
    var d := t.vertexes[q].destinationEdges;
    if d != [] {
      assert d[|d| - 1] in d && d[0] in d;
    }
  }

  /** Visiting another vertex keeps the vertexes created for an arranged vertex. */
  lemma NewVertexesFrame(s: Network, t: Network, p: VertexId, q: VertexId)
    requires Wf(s) && Wf(t) && NodesKept(s, t) && p < |s.vertexes| && q < |s.vertexes| && p != q
    requires AssistantEdges(s, q) != [] && ArrangedParent(s, t, q)
    requires Wf(RewriteVertex(t, p)) && NodesKept(s, RewriteVertex(t, p)) && ArrangedParent(s, RewriteVertex(t, p), q)
    ensures Substitute(s, RewriteVertex(t, p), q) == Substitute(s, t, q)
    ensures FirstNew(s, RewriteVertex(t, p), q) == FirstNew(s, t, q)
  {
    var t' := RewriteVertex(t, p);
    RewriteVertexFrame(t, p);
    forall e | e in t.vertexes[q].destinationEdges ensures t'.edges[e] == t.edges[e] {
      EdgeElsewhere(t, p, e);
    }
    NewVertexesCarryOver(s, t, t', q);
  }

  /** The vertexes created when `i` is visited come after every vertex of `t`. */
  lemma NewlyArrangedFirstNew(s: Network, t: Network, i: nat)
    requires PassInvariant(s, t, i) && i < |s.vertexes| && AssistantEdges(s, i) != []
    requires Wf(RewriteVertex(t, i)) && NodesKept(s, RewriteVertex(t, i)) && ArrangedParent(s, RewriteVertex(t, i), i)
    ensures |t.vertexes| <= FirstNew(s, RewriteVertex(t, i), i)
  {
    assert Unchanged(s, t, i);
    UnchangedPartition(s, t, i, i);
    LayoutOfParent(t, i);
    LayoutOfNewParts(t, i);
    var d := RewriteVertex(t, i).vertexes[i].destinationEdges;
    assert d == RewrittenDestinations(t, i);
    if |AssistantEdges(s, i)| % 2 == 1 {
      assert d[0] == |t.edges|;
    } else {
      assert d[|d| - 1] == SubstEdge(t, i);
    }
  }

  /** One more visit keeps the new vertexes in the order of their parents. */
  lemma NewVertexesStep(s: Network, t: Network, i: nat)
    requires PassInvariant(s, t, i) && i < |s.vertexes|
    requires Wf(RewriteVertex(t, i)) && NodesKept(s, RewriteVertex(t, i))
    requires forall q | 0 <= q < i + 1 && AssistantEdges(s, q) != [] :: Arranged(s, RewriteVertex(t, i), q)
    ensures NewVertexesInOrder(s, RewriteVertex(t, i), i + 1)
  {
    var t' := RewriteVertex(t, i);
    forall p, q | 0 <= p < q < i + 1 && AssistantEdges(s, p) != [] && AssistantEdges(s, q) != []
      ensures CreatedBefore(s, t', p, q)
    {
      assert Arranged(s, t, p) && Arranged(s, t', p) && Arranged(s, t', q);
      assert CreatedBefore(s, t, p, q) || q == i;
      NewVertexesFrame(s, t, i, p);
      if q == i {
        NewlyArrangedFirstNew(s, t, i);
      } else {
        assert Arranged(s, t, q);
        NewVertexesFrame(s, t, i, q);
      }
    }
  }

  /** One more visit adds exactly the vertexes and edges it creates. */
  lemma CreatedCountStep(s: Network, t: Network, i: nat)
    requires PassInvariant(s, t, i) && i < |s.vertexes|
    ensures CreatedCount(s, RewriteVertex(t, i), i + 1)
  {
    assert Unchanged(s, t, i);
    UnchangedPartition(s, t, i, i);
    if AssistantEdges(s, i) != [] {
      LayoutOfNewParts(t, i);
    }
  }

  /** One more visit leaves the edges that no vertex lists as they were. */
  lemma UnlistedEdgesStep(s: Network, t: Network, i: nat)
    requires Wf(t) && i < |s.vertexes| && i < |t.vertexes| && t.vertexes[i] == s.vertexes[i]
    requires UnlistedEdgesKept(s, t)
    ensures UnlistedEdgesKept(s, RewriteVertex(t, i))
  {
    var t' := RewriteVertex(t, i);
    RewriteVertexFrame(t, i);
    forall e | 0 <= e < |s.edges| && !Listed(s, e) ensures e < |t'.edges| && t'.edges[e] == s.edges[e] {
      assert e !in s.vertexes[i].destinationEdges;
    }
  }

  /** One more visit of the loop keeps the invariant. */
  lemma PassStep(s: Network, t: Network, i: nat)
    requires PassInvariant(s, t, i) && i < |s.vertexes|
    ensures PassInvariant(s, RewriteVertex(t, i), i + 1)
  {
    var t' := RewriteVertex(t, i);
    RewriteVertexWf(t, i);
    RewriteVertexFrame(t, i);
    assert Unchanged(s, t, i);
    UnchangedPartition(s, t, i, i);
    forall q | 0 <= q < |s.vertexes| && (i + 1 <= q || AssistantEdges(s, q) == [])
      ensures Unchanged(s, t', q)
    {
      assert Unchanged(s, t, q);
      if q != i {
        UnchangedFrame(s, t, i, q);
      }
    }
    forall q | 0 <= q < i + 1 && AssistantEdges(s, q) != []
      ensures Arranged(s, t', q)
    {
      if q == i {
        NewlyArranged(s, t, i);
      } else {
        ArrangedFrame(s, t, i, q);
      }
    }
    NewVertexesStep(s, t, i);
    CreatedCountStep(s, t, i);
    UnlistedEdgesStep(s, t, i);
  }

  /** Once the pass is over, every original vertex that had assistants is arranged. */
  lemma PassComplete(s: Network, t: Network)
    requires PassInvariant(s, t, |s.vertexes|)
    ensures NodesKept(s, t)
    ensures forall p | 0 <= p < |s.vertexes| && AssistantEdges(s, p) != [] :: Arranged(s, t, p)
    ensures forall p | 0 <= p < |s.vertexes| && AssistantEdges(s, p) == [] :: Unchanged(s, t, p)
    ensures NewVertexesInOrder(s, t, |s.vertexes|)
    ensures CreatedCount(s, t, |s.vertexes|)
    ensures UnlistedEdgesKept(s, t)
  {
  }

  /**
   * After the pass every original edge still leads to the vertex it led
   * to: it is unchanged, or it is a regular child edge that now starts at
   * a substitute.
   */
  lemma OriginalEdgeKeepsTarget(s: Network, t: Network, e: EdgeId)
    requires PassInvariant(s, t, |s.vertexes|) && e < |s.edges|
    ensures e < |t.edges| && t.edges[e].toVertex == s.edges[e].toVertex
  {
    if Listed(s, e) {
      var v :| 0 <= v < |s.vertexes| && e in s.vertexes[v].destinationEdges;
      if AssistantEdges(s, v) == [] {
        assert Unchanged(s, t, v);
      } else {
        assert Arranged(s, t, v);
        PartitionFacts(s, v);
        if e in AssistantEdges(s, v) {
          assert EdgesKept(s, t, AssistantEdges(s, v));
        } else {
          assert e in ChildEdges(s, v);
        }
      }
    }
  }

  /**
   * The edges the pass links to a dummy or a substitute are new edges,
   * numbered after every original one: none of them reuses an edge of `s`.
   */
  lemma NewEdgesFresh(s: Network, t: Network, p: VertexId)
    requires PassInvariant(s, t, |s.vertexes|) && p < |s.vertexes| && AssistantEdges(s, p) != []
    ensures var d := t.vertexes[p].destinationEdges;
            |s.edges| <= d[|d| - 1] < |t.edges| &&
            (|AssistantEdges(s, p)| % 2 == 1 ==> |s.edges| <= d[0] < |t.edges|)
  {
    assert Arranged(s, t, p);
    var d := t.vertexes[p].destinationEdges;
    if d[|d| - 1] < |s.edges| {
      OriginalEdgeKeepsTarget(s, t, d[|d| - 1]);
      assert false;
    }
    if |AssistantEdges(s, p)| % 2 == 1 && d[0] < |s.edges| {
      OriginalEdgeKeepsTarget(s, t, d[0]);
      assert false;
    }
  }

  lemma SeparatedPairs(a1: nat, a2: nat, b1: nat, b2: nat)
    requires a1 <= a2 < b1 <= b2
    ensures {a1, a2} !! {b1, b2}
  {
  }

  /** The vertexes created for `p` are fresh: none of them is an original vertex. */
  lemma NewVertexesFresh(s: Network, t: Network, p: VertexId)
    requires Wf(s) && Wf(t) && NodesKept(s, t) && p < |s.vertexes| && AssistantEdges(s, p) != [] && ArrangedParent(s, t, p)
    ensures forall v | v in NewVertexes(s, t, p) :: |s.vertexes| <= v < |t.vertexes|
  {
  }

  /**
   * Two different vertexes that had assistants have no created vertex in
   * common: every dummy and every substitute belongs to one parent only.
   */
  lemma NewVertexesDistinct(s: Network, t: Network, p: VertexId, q: VertexId)
    requires Wf(s) && Wf(t) && NodesKept(s, t) && p < |s.vertexes| && q < |s.vertexes| && p != q
    requires AssistantEdges(s, p) != [] && AssistantEdges(s, q) != []
    requires ArrangedParent(s, t, p) && ArrangedParent(s, t, q) && NewVertexesInOrder(s, t, |s.vertexes|)
    ensures NewVertexes(s, t, p) !! NewVertexes(s, t, q)
  {
    var a1, a2 := FirstNew(s, t, p), Substitute(s, t, p);
    var b1, b2 := FirstNew(s, t, q), Substitute(s, t, q);
    if p < q {
      assert CreatedBefore(s, t, p, q);
      SeparatedPairs(a1, a2, b1, b2);
    } else {
      assert CreatedBefore(s, t, q, p);
      SeparatedPairs(b1, b2, a1, a2);
    }
  }

  // The lemmas below hold for every arranged vertex, so by `PassComplete`
  // for every vertex that had assistants once the pass is over.

  /** The substitute vertex that the pass linked last from `p`. */
  ghost function Substitute(s: Network, t: Network, p: VertexId): (subst: VertexId)
    requires Wf(s) && Wf(t) && NodesKept(s, t) && p < |s.vertexes| && AssistantEdges(s, p) != [] && ArrangedParent(s, t, p)
    ensures |s.vertexes| <= subst < |t.vertexes|
  {
    LastChild(t, p)
  }

  /** The first vertex the pass created for `p`: the dummy when there is one, else the substitute. */
  ghost function FirstNew(s: Network, t: Network, p: VertexId): (v: VertexId)
    requires Wf(s) && Wf(t) && NodesKept(s, t) && p < |s.vertexes| && AssistantEdges(s, p) != [] && ArrangedParent(s, t, p)
    ensures |s.vertexes| <= v <= Substitute(s, t, p)
    ensures |AssistantEdges(s, p)| % 2 == 1 ==> v < Substitute(s, t, p)
  {
    if |AssistantEdges(s, p)| % 2 == 1 then FirstChild(t, p) else Substitute(s, t, p)
  }

  /** The vertexes the pass created for `p`: its dummy, if any, and its substitute. */
  ghost function NewVertexes(s: Network, t: Network, p: VertexId): set<VertexId>
    requires Wf(s) && Wf(t) && NodesKept(s, t) && p < |s.vertexes| && AssistantEdges(s, p) != [] && ArrangedParent(s, t, p)
  {
    {FirstNew(s, t, p), Substitute(s, t, p)}
  }

  /** After the pass, each assistant of `p` is still a direct child of `p`, through the same edge. */
  lemma AssistantsStayWithParent(s: Network, t: Network, p: VertexId)
    requires Wf(s) && Wf(t) && NodesKept(s, t) && p < |s.vertexes| && AssistantEdges(s, p) != [] && ArrangedParent(s, t, p)
    ensures forall e | e in AssistantEdges(s, p) ::
              e in t.vertexes[p].destinationEdges && e < |t.edges| && t.edges[e] == s.edges[e]
  {
    var A, d := AssistantEdges(s, p), t.vertexes[p].destinationEdges;
    var k := |A| % 2;
    forall e | e in A ensures e in d {
      var i :| 0 <= i < |A| && A[i] == e;
      assert d[k + i] == e;
    }
  }

  /**
   * With the dummy the number of assistant-side children of `p` is even,
   * so with the substitute, linked last, the number of children is odd.
   */
  lemma ChildCountOdd(s: Network, t: Network, p: VertexId)
    requires Wf(s) && Wf(t) && NodesKept(s, t) && p < |s.vertexes| && AssistantEdges(s, p) != [] && ArrangedParent(s, t, p)
    ensures var d, A := t.vertexes[p].destinationEdges, AssistantEdges(s, p);
            |d| == |A| + |A| % 2 + 1 && (|d| - 1) % 2 == 0 &&
            d[|d| - 1] < |t.edges| && t.edges[d[|d| - 1]] == TreeEdge(p, Substitute(s, t, p), None)
  {
  }

  /** After the pass, some child of `p` is an assistant: the layout gives `p` bus alignment. */
  lemma ParentKeepsAnAssistant(s: Network, t: Network, p: VertexId)
    requires Wf(s) && Wf(t) && NodesKept(s, t) && p < |s.vertexes| && AssistantEdges(s, p) != [] && ArrangedParent(s, t, p)
    ensures AnyAssistant(ChildNodes(t, p))
  {
    var A, d := AssistantEdges(s, p), t.vertexes[p].destinationEdges;
    var k := |A| % 2;
    PartitionFacts(s, p);
    assert A[0] in A;
    assert d[k] == A[0];
    var to := s.edges[A[0]].toVertex;
    assert ChildNodes(t, p)[k] == t.vertexes[to].node == s.vertexes[to].node;
    assert IsAssistant(ChildNodes(t, p)[k]);
  }

  /**
   * After the pass, the regular children of a vertex that had assistants
   * are children of its substitute, in their order, and no longer of the
   * vertex itself; the substitute has no node.
   */
  lemma RegularChildrenMoveToSubstitute(s: Network, t: Network, p: VertexId)
    requires Wf(s) && Wf(t) && NodesKept(s, t) && p < |s.vertexes| && AssistantEdges(s, p) != [] && Arranged(s, t, p)
    ensures t.vertexes[Substitute(s, t, p)] == TreeVertex(None, ChildEdges(s, p))
    ensures forall e | e in ChildEdges(s, p) ::
              e !in t.vertexes[p].destinationEdges && e < |t.edges| &&
              t.edges[e] == s.edges[e].(fromVertex := Substitute(s, t, p))
  {
    assert ArrangedParent(s, t, p);
    var A, C, d := AssistantEdges(s, p), ChildEdges(s, p), t.vertexes[p].destinationEdges;
    var k := |A| % 2;
    var subst := Substitute(s, t, p);
    PartitionFacts(s, p);
    forall e | e in C ensures e !in d {
      var to := s.edges[e].toVertex;
      assert t.edges[e].toVertex == to < |s.vertexes|;
      forall i | 0 <= i < |d| ensures d[i] != e {
        if i == |d| - 1 {
          assert t.edges[d[i]].toVertex == subst;
        } else if i < k {
          assert t.edges[d[0]].toVertex >= |s.vertexes|;
        } else {
          assert d[k..|d| - 1][i - k] == d[i];
          assert d[i] in A;
        }
      }
    }
  }

  /**
   * After the pass, no child of the substitute is an assistant, so the
   * layout gives it no bus alignment; it has as many children as `p` had
   * regular ones, so it gets zero layer spacing exactly when `p` had some.
   */
  lemma SubstituteHasNoAssistants(s: Network, t: Network, p: VertexId)
    requires Wf(s) && Wf(t) && NodesKept(s, t) && p < |s.vertexes| && AssistantEdges(s, p) != [] && Arranged(s, t, p)
    ensures !AnyAssistant(ChildNodes(t, Substitute(s, t, p)))
    ensures |ChildNodes(t, Substitute(s, t, p))| == |ChildEdges(s, p)|
  {
    assert ArrangedParent(s, t, p);
    var C := ChildEdges(s, p);
    var subst := Substitute(s, t, p);
    PartitionFacts(s, p);
    var ch := ChildNodes(t, subst);
    forall j | 0 <= j < |ch| ensures !IsAssistant(ch[j]) {
      assert C[j] in C;
      var to := s.edges[C[j]].toVertex;
      assert ch[j] == t.vertexes[to].node == s.vertexes[to].node;
    }
  }
}
