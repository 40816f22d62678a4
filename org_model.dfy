/**
 * The org chart as the tree model holds it: a record per employee, keyed by
 * its `key`, with an optional `parent` key naming the boss.  The tree the
 * diagram shows is the one these parent keys form; the editor keeps it a
 * forest (`validCycle: CycleDestinationTree`, and `mayWorkFor` on drops).
 *
 * The functions here state what each edit does to the chart; the lemmas
 * prove that every edit keeps the chart a forest and say how reporting
 * lines change.
 */
module OrgModel {
  import opened Wrappers

  type Key = int

  /** One record of the model's node data; an absent `isAssistant` reads as false. */
  datatype Employee = Employee(
    name: string,
    title: string,
    comments: string,
    parent: Option<Key>,
    isAssistant: bool)

  type Chart = map<Key, Employee>

  const NewPersonName := "(new person)"
  const VacantName := "(Vacant)"

  /** isAssistant(n): a missing node is never an assistant; otherwise the record's flag decides. */
  function IsAssistant(n: Option<Employee>): (r: bool)
    ensures n.None? ==> !r
    ensures n.Some? ==> (r <==> n.value.isAssistant)
  {
    match n
    case None => false
    case Some(e) => e.isAssistant
  }

  // ---------------------------------------------------------------------
  // The tree formed by parent keys
  // ---------------------------------------------------------------------

  /** Following parent keys from `k` ends at a record without a parent in at most `n` steps. */
  predicate ReachesRoot(c: Chart, k: Key, n: nat)
    decreases n
  {
    k in c && (c[k].parent.None? || (n > 0 && ReachesRoot(c, c[k].parent.value, n - 1)))
  }

  ghost predicate Rooted(c: Chart, k: Key) {
    exists n: nat :: ReachesRoot(c, k, n)
  }

  /** Every record's chain of bosses ends at a root: no cycles and no parent key without a record. */
  ghost predicate Forest(c: Chart) {
    forall k | k in c :: Rooted(c, k)
  }

  /** `a` is met within `n + 1` steps up the chain of bosses of `x`. */
  predicate AncestorWithin(c: Chart, a: Key, x: Key, n: nat)
    decreases n
  {
    x in c && c[x].parent.Some? &&
    (c[x].parent.value == a || (n > 0 && AncestorWithin(c, a, c[x].parent.value, n - 1)))
  }

  /** `x.isInTreeOf(a)`: `a` is a (strict) ancestor of `x`. */
  ghost predicate IsAncestor(c: Chart, a: Key, x: Key) {
    exists n: nat :: AncestorWithin(c, a, x, n)
  }

  /** `findTreeParts`: the node `k` and all its descendants. */
  ghost function Subtree(c: Chart, k: Key): set<Key> {
    set x | x in c && (x == k || IsAncestor(c, k, x))
  }

  /** The nodes `findTreeChildrenNodes` yields for `k`. */
  function Children(c: Chart, k: Key): set<Key> {
    set x | x in c && c[x].parent == Some(k)
  }

  /** Two charts with the same records and the same parent keys have the same tree. */
  ghost predicate SameTree(c: Chart, d: Chart) {
    c.Keys == d.Keys && forall x | x in c :: c[x].parent == d[x].parent
  }

  // ---------------------------------------------------------------------
  // The edits
  // ---------------------------------------------------------------------

  /** The record that a double click (on a node or on the background) adds. */
  function NewPerson(parent: Option<Key>): (e: Employee)
    ensures e.name == NewPersonName && e.title == "" && e.comments == ""
    ensures e.parent == parent && !IsAssistant(Some(e))
  {
    Employee(NewPersonName, "", "", parent, false)
  }

  /** addNodeData of a new person under the fresh key `key`. */
  function AddPerson(c: Chart, key: Key, parent: Option<Key>): (d: Chart)
    ensures d.Keys == c.Keys + {key} && d[key] == NewPerson(parent)
    ensures forall x | x in c && x != key :: d[x] == c[x]
  {
    c[key := NewPerson(parent)]
  }

  /** A drop that makes `b` the boss of `a`, by relinking its link or inserting one. */
  function Reparent(c: Chart, a: Key, b: Key): (d: Chart)
    requires a in c
    ensures d.Keys == c.Keys && d[a].parent == Some(b)
    ensures d[a].(parent := c[a].parent) == c[a]
    ensures forall x | x in c && x != a :: d[x] == c[x]
  {
    c[a := c[a].(parent := Some(b))]
  }

  /** "Vacate Position": the name becomes "(Vacant)" and the comments are cleared. */
  function Vacate(c: Chart, k: Key): (d: Chart)
    requires k in c
    ensures d.Keys == c.Keys && d[k].name == VacantName && d[k].comments == ""
    ensures d[k].(name := c[k].name, comments := c[k].comments) == c[k]
    ensures forall x | x in c && x != k :: d[x] == c[x]
  {
    c[k := c[k].(name := VacantName, comments := "")]
  }

  /** "Toggle Assistant": `isAssistant := !isAssistant`. */
  function ToggleAssistant(c: Chart, k: Key): (d: Chart)
    requires k in c
    ensures d.Keys == c.Keys && IsAssistant(Some(d[k])) != IsAssistant(Some(c[k]))
    ensures d[k].(isAssistant := c[k].isAssistant) == c[k]
    ensures forall x | x in c && x != k :: d[x] == c[x]
  {
    c[k := c[k].(isAssistant := !c[k].isAssistant)]
  }

  /** Why an edit stopped: `findTreeParentNode()` was null where its `data` was read. */
  datatype EditError = NoTreeParent

  /** `k` has a tree parent node: a parent key that names a record. */
  predicate HasTreeParent(c: Chart, k: Key)
    requires k in c
  {
    c[k].parent.Some? && c[k].parent.value in c
  }

  /** Every child of `k` takes `k`'s parent key, and `k` is removed. */
  function LiftChildren(c: Chart, k: Key): (d: Chart)
    requires k in c
    ensures d.Keys == c.Keys - {k}
    ensures forall x | x in Children(c, k) && x != k :: d[x] == c[x].(parent := c[k].parent)
    ensures forall x | x in d && x !in Children(c, k) :: d[x] == c[x]
    ensures c[k].parent != Some(k) ==> Children(d, k) == {}
  {
    map x | x in c && x != k :: if c[x].parent == Some(k) then c[x].(parent := c[k].parent) else c[x]
  }

  /**
   * "Remove Role".  The children are given the grandparent's key, read
   * through `findTreeParentNode().data` at each child; for a node that has
   * children but no tree parent that read fails on the first child, before
   * anything changed.
   */
  function RemoveRole(c: Chart, k: Key): (r: Result<Chart, EditError>)
    requires k in c
    ensures r.Err? <==> Children(c, k) != {} && !HasTreeParent(c, k)
    ensures r.Ok? ==> r.value == LiftChildren(c, k)
  {
    if Children(c, k) != {} && !HasTreeParent(c, k) then Err(NoTreeParent)
    else Ok(LiftChildren(c, k))
  }

  /** "Remove Department": the node and all its descendants disappear. */
  ghost function RemoveDepartment(c: Chart, k: Key): (d: Chart)
    requires k in c
    ensures k !in d && d.Keys == c.Keys - Subtree(c, k)
    ensures forall x | x in d :: d[x] == c[x] && !IsAncestor(c, k, x)
  {
    c - Subtree(c, k)
  }

  // ---------------------------------------------------------------------
  // Facts about chains of bosses
  // ---------------------------------------------------------------------

  /** A non-empty set of keys has an element (stated so that `:|` can pick one). */
  lemma HasElement(s: set<Key>)
    requires s != {}
    ensures exists y :: y in s
  {
    if forall y :: y !in s {
      assert false;
    }
  }

  lemma {:induction false} ReachesRootStep(c: Chart, x: Key, n: nat)
    ensures ReachesRoot(c, x, n) ==> ReachesRoot(c, x, n + 1)
    decreases n
  {
    if x in c && c[x].parent.Some? && n > 0 {
      ReachesRootStep(c, c[x].parent.value, n - 1);
    }
  }

  /** In a chain that ends at a root no record is its own boss. */
  lemma {:induction false} NoSelfParent(c: Chart, k: Key, n: nat)
    requires ReachesRoot(c, k, n)
    ensures c[k].parent != Some(k)
    decreases n
  {
    if c[k].parent.Some? && n > 0 {
      var p := c[k].parent.value;
      if p == k {
        NoSelfParent(c, k, n - 1);
      }
    }
  }

  lemma ForestHasNoSelfParent(c: Chart, k: Key)
    requires Forest(c) && k in c
    ensures c[k].parent != Some(k)
    ensures c[k].parent.Some? ==> c[k].parent.value in c
  {
    assert Rooted(c, k);
    var n: nat :| ReachesRoot(c, k, n);
    NoSelfParent(c, k, n);
    if c[k].parent.Some? {
      assert ReachesRoot(c, c[k].parent.value, n - 1);
    }
  }

  /** An ancestor of a record's parent is an ancestor of the record. */
  lemma AncestorThroughParent(c: Chart, a: Key, x: Key, p: Key)
    requires x in c && c[x].parent == Some(p)
    requires p == a || IsAncestor(c, a, p)
    ensures IsAncestor(c, a, x)
  {
    if p == a {
      assert AncestorWithin(c, a, x, 0);
    } else {
      var n: nat :| AncestorWithin(c, a, p, n);
      assert AncestorWithin(c, a, x, n + 1);
    }
  }

  /** A parent of a record outside a subtree is outside it too. */
  lemma ParentOutsideSubtree(c: Chart, k: Key, x: Key)
    requires x in c && x !in Subtree(c, k) && c[x].parent.Some?
    ensures c[x].parent.value !in Subtree(c, k)
  {
    var p := c[x].parent.value;
    if p in Subtree(c, k) {
      AncestorThroughParent(c, k, x, p);
      assert false;
    }
  }

  // ---------------------------------------------------------------------
  // Dropping a node onto a new boss (mayWorkFor, mouseDrop)
  // ---------------------------------------------------------------------

  /** A chain that never meets `a` is not touched by giving `a` a new boss. */
  lemma {:induction false} ChainAvoidingNode(c: Chart, a: Key, b: Key, x: Key, n: nat)
    requires a in c && ReachesRoot(c, x, n) && x != a && !IsAncestor(c, a, x)
    ensures ReachesRoot(Reparent(c, a, b), x, n)
    decreases n
  {
    var d := Reparent(c, a, b);
    assert d[x] == c[x];
    if c[x].parent.Some? {
      var p := c[x].parent.value;
      assert !AncestorWithin(c, a, x, 0);
      forall m: nat ensures !AncestorWithin(c, a, p, m) {
        assert !AncestorWithin(c, a, x, m + 1);
      }
      ChainAvoidingNode(c, a, b, p, n - 1);
    }
  }

  /** Once `a` is rooted after the drop, every record that was rooted before is rooted after it. */
  lemma {:induction false} ChainThroughMovedNode(c: Chart, a: Key, b: Key, x: Key, n: nat, m: nat)
    requires a in c && ReachesRoot(c, x, n) && ReachesRoot(Reparent(c, a, b), a, m)
    ensures Rooted(Reparent(c, a, b), x)
    decreases n
  {
    var d := Reparent(c, a, b);
    if x == a {
      assert ReachesRoot(d, a, m);
    } else if c[x].parent.None? {
      assert ReachesRoot(d, x, 0);
    } else {
      var p := c[x].parent.value;
      ChainThroughMovedNode(c, a, b, p, n - 1, m);
      var j: nat :| ReachesRoot(d, p, j);
      assert ReachesRoot(d, x, j + 1);
    }
  }

  /** Going up from a descendant `x` of `a` after the drop meets `a` again before any root. */
  lemma {:induction false} ChainBackToMovedNode(c: Chart, a: Key, b: Key, x: Key, m: nat, k: nat)
    requires a in c && x != a && AncestorWithin(c, a, x, m)
    ensures ReachesRoot(Reparent(c, a, b), x, k) ==> k > 0 && ReachesRoot(Reparent(c, a, b), a, k - 1)
    decreases m
  {
    var d := Reparent(c, a, b);
    assert d[x] == c[x];
    var p := c[x].parent.value;
    if p != a && k > 0 {
      ChainBackToMovedNode(c, a, b, p, m - 1, k - 1);
      if k >= 2 {
        ReachesRootStep(d, a, k - 2);
      }
    }
  }

  /** Making `a` report to itself or to one of its descendants leaves `a` without a root. */
  lemma {:induction false} CycleHasNoRoot(c: Chart, a: Key, b: Key, n: nat)
    requires a in c && (a == b || IsAncestor(c, a, b))
    ensures !ReachesRoot(Reparent(c, a, b), a, n)
    decreases n
  {
    if n > 0 {
      if a == b {
        CycleHasNoRoot(c, a, b, n - 1);
      } else {
        var m: nat :| AncestorWithin(c, a, b, m);
        ChainBackToMovedNode(c, a, b, b, m, n - 1);
        if n >= 2 {
          CycleHasNoRoot(c, a, b, n - 2);
        }
      }
    }
  }

  /**
   * The drop keeps the chart a forest exactly when `mayWorkFor` allows it:
   * the dragged node is not the target and is not one of its ancestors.
   */
  lemma ReparentKeepsForestIff(c: Chart, a: Key, b: Key)
    requires Forest(c) && a in c && b in c
    ensures Forest(Reparent(c, a, b)) <==> a != b && !IsAncestor(c, a, b)
  {
    var d := Reparent(c, a, b);
    if a != b && !IsAncestor(c, a, b) {
      assert Rooted(c, b);
      var nb: nat :| ReachesRoot(c, b, nb);
      ChainAvoidingNode(c, a, b, b, nb);
      assert ReachesRoot(d, a, nb + 1);
      forall x | x in d ensures Rooted(d, x) {
        assert Rooted(c, x);
        var n: nat :| ReachesRoot(c, x, n);
        ChainThroughMovedNode(c, a, b, x, n, nb + 1);
      }
    } else {
      forall n: nat ensures !ReachesRoot(d, a, n) {
        CycleHasNoRoot(c, a, b, n);
      }
      assert !Rooted(d, a);
    }
  }

  // ---------------------------------------------------------------------
  // "Remove Role"
  // ---------------------------------------------------------------------

  lemma {:induction false} LiftedChain(c: Chart, k: Key, x: Key, n: nat)
    requires k in c && c[k].parent != Some(k)
    requires ReachesRoot(c, x, n) && x != k
    ensures Rooted(LiftChildren(c, k), x)
    decreases n
  {
    var d := LiftChildren(c, k);
    if c[x].parent.None? {
      assert ReachesRoot(d, x, 0);
    } else {
      var p := c[x].parent.value;
      if p != k {
        LiftedChain(c, k, p, n - 1);
        var j: nat :| ReachesRoot(d, p, j);
        assert ReachesRoot(d, x, j + 1);
      } else if c[k].parent.None? {
        assert ReachesRoot(d, x, 0);
      } else {
        var g := c[k].parent.value;
        LiftedChain(c, k, g, n - 2);
        var j: nat :| ReachesRoot(d, g, j);
        assert ReachesRoot(d, x, j + 1);
      }
    }
  }

  /** "Remove Role" keeps the chart a forest. */
  lemma RemoveRoleKeepsForest(c: Chart, k: Key)
    requires Forest(c) && k in c && RemoveRole(c, k).Ok?
    ensures Forest(RemoveRole(c, k).value)
  {
    var d := LiftChildren(c, k);
    ForestHasNoSelfParent(c, k);
    forall x | x in d ensures Rooted(d, x) {
      assert Rooted(c, x);
      var n: nat :| ReachesRoot(c, x, n);
      LiftedChain(c, k, x, n);
    }
  }

  lemma {:induction false} LiftedAncestorWasAncestor(c: Chart, k: Key, y: Key, x: Key, n: nat)
    requires k in c && c[k].parent != Some(k)
    requires AncestorWithin(LiftChildren(c, k), y, x, n)
    ensures IsAncestor(c, y, x) && y != k
    decreases n
  {
    var d := LiftChildren(c, k);
    var q := d[x].parent.value;
    assert q != k;
    assert IsAncestor(c, q, x) by {
      if c[x].parent == Some(k) {
        assert AncestorWithin(c, q, k, 0);
        assert AncestorWithin(c, q, x, 1);
      } else {
        assert AncestorWithin(c, q, x, 0);
      }
    }
    if q != y {
      LiftedAncestorWasAncestor(c, k, y, q, n - 1);
      var j: nat :| AncestorWithin(c, y, q, j);
      if c[x].parent == Some(k) {
        assert AncestorWithin(c, y, k, j + 1);
        assert AncestorWithin(c, y, x, j + 2);
      } else {
        assert AncestorWithin(c, y, x, j + 1);
      }
    }
  }

  lemma {:induction false} AncestorStaysAncestor(c: Chart, k: Key, y: Key, x: Key, n: nat)
    requires k in c && c[k].parent != Some(k)
    requires AncestorWithin(c, y, x, n) && x != k && y != k
    ensures IsAncestor(LiftChildren(c, k), y, x)
    decreases n
  {
    var d := LiftChildren(c, k);
    var p := c[x].parent.value;
    if p == y {
      assert AncestorWithin(d, y, x, 0);
    } else if p != k {
      AncestorStaysAncestor(c, k, y, p, n - 1);
      var j: nat :| AncestorWithin(d, y, p, j);
      assert AncestorWithin(d, y, x, j + 1);
    } else {
      var g := c[k].parent.value;
      if g == y {
        assert AncestorWithin(d, y, x, 0);
      } else {
        AncestorStaysAncestor(c, k, y, g, n - 2);
        var j: nat :| AncestorWithin(d, y, g, j);
        assert AncestorWithin(d, y, x, j + 1);
      }
    }
  }

  /**
   * After "Remove Role" every remaining record reports, directly or not, to
   * exactly the bosses it reported to before, except the removed one.
   */
  lemma RemoveRoleAncestors(c: Chart, k: Key)
    requires Forest(c) && k in c && RemoveRole(c, k).Ok?
    ensures var d := RemoveRole(c, k).value;
      d.Keys == c.Keys - {k} &&
      forall x, y | x in d :: IsAncestor(d, y, x) <==> IsAncestor(c, y, x) && y != k
  {
    var d := LiftChildren(c, k);
    ForestHasNoSelfParent(c, k);
    forall x, y | x in d ensures IsAncestor(d, y, x) <==> IsAncestor(c, y, x) && y != k {
      if IsAncestor(d, y, x) {
        var n: nat :| AncestorWithin(d, y, x, n);
        LiftedAncestorWasAncestor(c, k, y, x, n);
      }
      if IsAncestor(c, y, x) && y != k {
        var n: nat :| AncestorWithin(c, y, x, n);
        AncestorStaysAncestor(c, k, y, x, n);
      }
    }
  }

  // ---------------------------------------------------------------------
  // "Remove Department"
  // ---------------------------------------------------------------------

  lemma {:induction false} ChainOutsideSubtree(c: Chart, k: Key, x: Key, n: nat)
    requires ReachesRoot(c, x, n) && x !in Subtree(c, k)
    ensures ReachesRoot(c - Subtree(c, k), x, n)
    decreases n
  {
    if c[x].parent.Some? {
      ParentOutsideSubtree(c, k, x);
      ChainOutsideSubtree(c, k, c[x].parent.value, n - 1);
    }
  }

  lemma {:induction false} AncestorOutsideSubtree(c: Chart, k: Key, y: Key, x: Key, n: nat)
    requires AncestorWithin(c, y, x, n) && x !in Subtree(c, k)
    ensures AncestorWithin(c - Subtree(c, k), y, x, n)
    decreases n
  {
    var p := c[x].parent.value;
    if p != y {
      ParentOutsideSubtree(c, k, x);
      AncestorOutsideSubtree(c, k, y, p, n - 1);
    }
  }

  lemma {:induction false} AncestorInSubChart(c: Chart, d: Chart, y: Key, x: Key, n: nat)
    requires d.Keys <= c.Keys && forall z | z in d :: d[z] == c[z]
    requires AncestorWithin(d, y, x, n)
    ensures AncestorWithin(c, y, x, n)
    decreases n
  {
    if d[x].parent.value != y {
      AncestorInSubChart(c, d, y, d[x].parent.value, n - 1);
    }
  }

  /**
   * "Remove Department" keeps the chart a forest, removes exactly the node
   * and its descendants, and leaves every remaining record, and every
   * remaining reporting line, as it was.
   */
  lemma RemoveDepartmentKeepsForest(c: Chart, k: Key)
    requires Forest(c) && k in c
    ensures var d := RemoveDepartment(c, k);
      Forest(d) &&
      d.Keys == c.Keys - Subtree(c, k) && k !in d &&
      (forall x | x in d :: d[x] == c[x] && !IsAncestor(c, k, x)) &&
      (forall x, y | x in d :: IsAncestor(d, y, x) <==> IsAncestor(c, y, x))
  {
    var d := RemoveDepartment(c, k);
    forall x | x in d ensures Rooted(d, x) {
      assert Rooted(c, x);
      var n: nat :| ReachesRoot(c, x, n);
      ChainOutsideSubtree(c, k, x, n);
    }
    forall x, y | x in d ensures IsAncestor(d, y, x) <==> IsAncestor(c, y, x) {
      if IsAncestor(d, y, x) {
        var n: nat :| AncestorWithin(d, y, x, n);
        AncestorInSubChart(c, d, y, x, n);
      }
      if IsAncestor(c, y, x) {
        var n: nat :| AncestorWithin(c, y, x, n);
        AncestorOutsideSubtree(c, k, y, x, n);
      }
    }
  }

  // ---------------------------------------------------------------------
  // Adding a person
  // ---------------------------------------------------------------------

  lemma {:induction false} ChainWithoutNewKey(c: Chart, key: Key, e: Employee, x: Key, n: nat)
    requires key !in c && ReachesRoot(c, x, n)
    ensures ReachesRoot(c[key := e], x, n)
    decreases n
  {
    if c[x].parent.Some? {
      ChainWithoutNewKey(c, key, e, c[x].parent.value, n - 1);
    }
  }

  /**
   * A new person under an unused key, with no boss or with an existing
   * boss, keeps the chart a forest; the new record is a leaf and every
   * existing record keeps its chain of bosses.
   */
  lemma AddPersonKeepsForest(c: Chart, key: Key, parent: Option<Key>)
    requires Forest(c) && key !in c && (parent.Some? ==> parent.value in c)
    ensures var d := AddPerson(c, key, parent);
      Forest(d) && Children(d, key) == {} &&
      (forall x | x in c :: d[x] == c[x]) &&
      (forall x, n: nat | ReachesRoot(c, x, n) :: ReachesRoot(d, x, n))
  {
    var d := AddPerson(c, key, parent);
    var e := NewPerson(parent);
    forall x, n: nat | ReachesRoot(c, x, n) ensures ReachesRoot(d, x, n) {
      ChainWithoutNewKey(c, key, e, x, n);
    }
    forall x | x in c ensures Rooted(d, x) {
      assert Rooted(c, x);
      var n: nat :| ReachesRoot(c, x, n);
      ChainWithoutNewKey(c, key, e, x, n);
    }
    if parent.None? {
      assert ReachesRoot(d, key, 0);
    } else {
      assert Rooted(d, parent.value);
      var n: nat :| ReachesRoot(d, parent.value, n);
      assert ReachesRoot(d, key, n + 1);
    }
    forall x | x in d ensures d[x].parent != Some(key) {
      if x != key {
        ForestHasNoSelfParent(c, x);
      }
    }
  }

  // ---------------------------------------------------------------------
  // Field updates
  // ---------------------------------------------------------------------

  lemma {:induction false} SameTreeChain(c: Chart, d: Chart, x: Key, n: nat)
    requires SameTree(c, d) && ReachesRoot(c, x, n)
    ensures ReachesRoot(d, x, n)
    decreases n
  {
    if c[x].parent.Some? {
      SameTreeChain(c, d, c[x].parent.value, n - 1);
    }
  }

  lemma {:induction false} SameTreeAncestor(c: Chart, d: Chart, y: Key, x: Key, n: nat)
    requires SameTree(c, d) && AncestorWithin(c, y, x, n)
    ensures AncestorWithin(d, y, x, n)
    decreases n
  {
    if c[x].parent.value != y {
      SameTreeAncestor(c, d, y, c[x].parent.value, n - 1);
    }
  }

  /** Charts with the same parent keys are forests together and have the same reporting lines. */
  lemma SameTreeSameForest(c: Chart, d: Chart)
    requires SameTree(c, d)
    ensures Forest(c) ==> Forest(d)
    ensures forall x, y :: IsAncestor(c, y, x) ==> IsAncestor(d, y, x)
  {
    if Forest(c) {
      forall x | x in d ensures Rooted(d, x) {
        assert Rooted(c, x);
        var n: nat :| ReachesRoot(c, x, n);
        SameTreeChain(c, d, x, n);
      }
    }
    forall x, y | IsAncestor(c, y, x) ensures IsAncestor(d, y, x) {
      var n: nat :| AncestorWithin(c, y, x, n);
      SameTreeAncestor(c, d, y, x, n);
    }
  }

  /**
   * "Vacate Position" changes only the name and the comments of the one
   * record, so the tree is the same; vacating twice is vacating once.
   */
  lemma VacateChangesOnlyNameAndComments(c: Chart, k: Key)
    requires k in c
    ensures var d := Vacate(c, k);
      SameTree(c, d) && SameTree(d, c) &&
      d[k].title == c[k].title && d[k].isAssistant == c[k].isAssistant &&
      d[k].name == VacantName && d[k].comments == "" &&
      (forall x | x in c && x != k :: d[x] == c[x]) &&
      Vacate(d, k) == d
  {
  }

  /**
   * "Toggle Assistant" negates the one flag and nothing else, so the tree is
   * the same, and toggling twice restores the chart.
   */
  lemma ToggleAssistantIsInvolution(c: Chart, k: Key)
    requires k in c
    ensures var d := ToggleAssistant(c, k);
      SameTree(c, d) && SameTree(d, c) &&
      d[k].isAssistant == !c[k].isAssistant &&
      d[k] == c[k].(isAssistant := d[k].isAssistant) &&
      (forall x | x in c && x != k :: d[x] == c[x]) &&
      ToggleAssistant(d, k) == c
  {
    var d := ToggleAssistant(c, k);
    assert ToggleAssistant(d, k)[k] == c[k];
  }
}
