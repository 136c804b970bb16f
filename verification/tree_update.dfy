/**
  UITreeListItem::updateTree / doUpdateTree: a pre-order walk that keeps an
  "items left per depth" stack. On entering a node it pushes the node's
  child count, decrements the top after each child, and pops on leaving.
  Every node that owns widgets is handed a snapshot of the stack, which the
  model records as a `Visit` (one call of updateGuides).
 */
module TreeUpdate {
  import opened Paths
  import opened TreeList
  import opened TreeGuides

  /** One updateGuides call: the node's id, the stack snapshot, and whether it has children. */
  datatype Visit = Visit(id: string, itemsLeftPerDepth: seq<int>, hasChildren: bool)

  /** doUpdateTree on `t` with the shared stack `stack`: the visits made and the stack left behind. */
  function DoUpdateTree(t: Item, stack: seq<int>): (r: (seq<Visit>, seq<int>))
    ensures r.1 == stack
    decreases t, 1
  {
    var here := if t.hasWidgets then [Visit(t.id, stack, HasChildren(t))] else [];
    var (visits, pushed) := UpdateChildren(t, 0, stack + [|t.children|]);
    (here + visits, pushed[..|pushed| - 1])
  }

  /**
    The child loop of doUpdateTree from child `i` on: recurse into the child,
    then decrement the top of the stack. Leaving the loop, the top has gone
    down by the number of children visited and nothing below it changed.
   */
  function UpdateChildren(t: Item, i: nat, stack: seq<int>): (r: (seq<Visit>, seq<int>))
    requires i <= |t.children| && |stack| > 0
    ensures r.1 == stack[..|stack| - 1] + [stack[|stack| - 1] - (|t.children| - i)]
    decreases t, 0, |t.children| - i
  {
    if i == |t.children| then ([], stack)
    else
      var (visits, after) := DoUpdateTree(t.children[i], stack);
      var decremented := after[..|after| - 1] + [after[|after| - 1] - 1];
      var (rest, final) := UpdateChildren(t, i + 1, decremented);
      (visits + rest, final)
  }

  /** UITreeListItem::updateTree: the walk from the root with an empty stack. */
  function UpdateTree(root: Item): seq<Visit> {
    DoUpdateTree(root, []).0
  }

  // ---------------------------------------------------------------------------
  // A stack-free reference walk
  // ---------------------------------------------------------------------------

  /**
    The visits of a pre-order walk in which child `i` of a node with n
    children simply sees its parent's snapshot extended by n - i.
   */
  function RefVisits(t: Item, s: seq<int>): seq<Visit>
    decreases t, 1
  {
    (if t.hasWidgets then [Visit(t.id, s, HasChildren(t))] else []) + RefChildren(t, 0, s)
  }

  function RefChildren(t: Item, i: nat, s: seq<int>): seq<Visit>
    requires i <= |t.children|
    decreases t, 0, |t.children| - i
  {
    if i == |t.children| then []
    else RefVisits(t.children[i], s + [|t.children| - i]) + RefChildren(t, i + 1, s)
  }

  /** The stack walk makes the same calls as the reference walk: child i sees n - i on top. */
  lemma {:induction false} DoUpdateTreeIsReference(t: Item, s: seq<int>)
    ensures DoUpdateTree(t, s).0 == RefVisits(t, s)
    decreases t, 1
  {
    UpdateChildrenIsReference(t, 0, s);
  }

  lemma {:induction false} UpdateChildrenIsReference(t: Item, i: nat, s: seq<int>)
    requires i <= |t.children|
    ensures UpdateChildren(t, i, s + [|t.children| - i]).0 == RefChildren(t, i, s)
    decreases t, 0, |t.children| - i
  {
    if i < |t.children| {
      var stack := s + [|t.children| - i];
      DoUpdateTreeIsReference(t.children[i], stack);
      assert stack[..|stack| - 1] + [stack[|stack| - 1] - 1] == s + [|t.children| - (i + 1)];
      UpdateChildrenIsReference(t, i + 1, s);
    }
  }

  // ---------------------------------------------------------------------------
  // What each node is shown
  // ---------------------------------------------------------------------------

  /**
    The snapshot the node at `p` receives below the root: one entry per
    depth, the entry at depth j being the number of siblings of the
    depth-(j+1) ancestor that are not yet visited, itself included. Every
    entry is at least 1, and 1 marks a last child.
   */
  function Snapshot(t: Item, p: Path): (r: seq<int>)
    requires ValidPath(t, p)
    ensures |r| == |p|
    ensures forall j :: 0 <= j < |p| ==> r[j] >= 1
    decreases p
  {
    if |p| == 0 then [] else [|t.children| - p[0]] + Snapshot(t.children[p[0]], p[1..])
  }

  /** The call updateGuides receives for the node at `p` when the walk starts with stack `s`. */
  function VisitAt(t: Item, s: seq<int>, p: Path): Visit
    requires ValidPath(t, p)
  {
    Visit(At(t, p).id, s + Snapshot(t, p), HasChildren(At(t, p)))
  }

  lemma {:induction false} RefChildrenContains(t: Item, i: nat, j: nat, s: seq<int>, v: Visit)
    requires i <= j < |t.children| && v in RefVisits(t.children[j], s + [|t.children| - j])
    ensures v in RefChildren(t, i, s)
    decreases j - i
  {
    if i < j {
      RefChildrenContains(t, i + 1, j, s, v);
    }
  }

  /** Descending into child `i` prepends `i` to the path and `n - i` to the snapshot. */
  lemma ChildStep(t: Item, i: nat, q: Path)
    requires i < |t.children| && ValidPath(t.children[i], q)
    ensures ValidPath(t, [i] + q)
    ensures At(t, [i] + q) == At(t.children[i], q)
    ensures Snapshot(t, [i] + q) == [|t.children| - i] + Snapshot(t.children[i], q)
  {
    assert ([i] + q)[0] == i && ([i] + q)[1..] == q;
  }

  /** Every widget-owning node is visited, with its own snapshot. */
  lemma {:induction false} EveryWidgetNodeVisited(t: Item, s: seq<int>, p: Path)
    requires ValidPath(t, p) && At(t, p).hasWidgets
    ensures VisitAt(t, s, p) in RefVisits(t, s)
    decreases p
  {
    var here := if t.hasWidgets then [Visit(t.id, s, HasChildren(t))] else [];
    assert RefVisits(t, s) == here + RefChildren(t, 0, s);
    if |p| == 0 {
      assert s + Snapshot(t, p) == s;
      assert VisitAt(t, s, p) in here;
    } else {
      var c := t.children[p[0]];
      var s' := s + [|t.children| - p[0]];
      EveryWidgetNodeVisited(c, s', p[1..]);
      ChildStep(t, p[0], p[1..]);
      assert [p[0]] + p[1..] == p;
      assert s' + Snapshot(c, p[1..]) == s + Snapshot(t, p);
      assert VisitAt(c, s', p[1..]) == VisitAt(t, s, p);
      RefChildrenContains(t, 0, p[0], s, VisitAt(t, s, p));
    }
  }

  /** Every visit belongs to a widget-owning node. */
  lemma {:induction false} EveryVisitIsWidgetNode(t: Item, s: seq<int>, v: Visit)
    requires v in RefVisits(t, s)
    ensures exists p :: ValidPath(t, p) && At(t, p).hasWidgets && v == VisitAt(t, s, p)
    decreases t, 1
  {
    if t.hasWidgets && v == Visit(t.id, s, HasChildren(t)) {
      assert ValidPath(t, []) && v == VisitAt(t, s, []);
    } else {
      assert v in RefChildren(t, 0, s);
      EveryChildVisitIsWidgetNode(t, 0, s, v);
    }
  }

  lemma {:induction false} EveryChildVisitIsWidgetNode(t: Item, i: nat, s: seq<int>, v: Visit)
    requires i < |t.children| && v in RefChildren(t, i, s)
    ensures exists p :: ValidPath(t, p) && At(t, p).hasWidgets && v == VisitAt(t, s, p)
    decreases t, 0, |t.children| - i
  {
    var c := t.children[i];
    var s' := s + [|t.children| - i];
    if v in RefVisits(c, s') {
      EveryVisitIsWidgetNode(c, s', v);
      var q :| ValidPath(c, q) && At(c, q).hasWidgets && v == VisitAt(c, s', q);
      ChildStep(t, i, q);
      assert s' + Snapshot(c, q) == s + Snapshot(t, [i] + q);
      assert VisitAt(t, s, [i] + q) == v;
    } else {
      assert v in RefChildren(t, i + 1, s);
      EveryChildVisitIsWidgetNode(t, i + 1, s, v);
    }
  }

  /** The updateGuides calls of UITreeList::update, characterised without the stack. */
  lemma UpdateTreeVisits(root: Item)
    ensures forall p :: ValidPath(root, p) && At(root, p).hasWidgets ==> VisitAt(root, [], p) in UpdateTree(root)
    ensures forall v :: v in UpdateTree(root) ==>
              exists p :: ValidPath(root, p) && At(root, p).hasWidgets && v == VisitAt(root, [], p)
  {
    DoUpdateTreeIsReference(root, []);
    forall p | ValidPath(root, p) && At(root, p).hasWidgets ensures VisitAt(root, [], p) in UpdateTree(root) {
      EveryWidgetNodeVisited(root, [], p);
    }
    forall v | v in UpdateTree(root)
      ensures exists p :: ValidPath(root, p) && At(root, p).hasWidgets && v == VisitAt(root, [], p)
    {
      EveryVisitIsWidgetNode(root, [], v);
    }
  }

  /** In a tree built by addTreeItem every updateGuides call gets a non-empty stack: its depth. */
  lemma WellFormedVisitsHaveDepth(root: Item, v: Visit)
    requires WellFormed(root) && v in UpdateTree(root)
    ensures |v.itemsLeftPerDepth| >= 1
  {
    UpdateTreeVisits(root);
    var p :| ValidPath(root, p) && At(root, p).hasWidgets && v == VisitAt(root, [], p);
    assert p != [];
  }

  /** The node at `q` (not the root) is the last child of its parent. */
  predicate IsLastChild(t: Item, q: Path)
    requires ValidPath(t, q) && |q| > 0
    decreases q
  {
    if |q| == 1 then q[0] == |t.children| - 1 else IsLastChild(t.children[q[0]], q[1..])
  }

  /** Snapshot entry j is 1 exactly when the depth-(j+1) ancestor is a last child. */
  lemma {:induction false} SnapshotMarksLastChild(t: Item, p: Path, j: nat)
    requires ValidPath(t, p) && j < |p|
    ensures ValidPath(t, p[..j + 1])
    ensures IsLastChild(t, p[..j + 1]) <==> Snapshot(t, p)[j] == 1
    decreases p
  {
    if j > 0 {
      SnapshotMarksLastChild(t.children[p[0]], p[1..], j - 1);
      assert p[..j + 1][0] == p[0] && p[..j + 1][1..] == p[1..][..j];
    }
  }

  /**
    The guides a node at depth d >= 1 shows, read against the tree: d - 1
    guides plus a leaf marker exactly when the node has no children, and,
    from depth 2 on, beside the node an L when it is its parent's last child
    and a T otherwise. A root child has no guide beside it.
   */
  lemma GuideBesideNode(t: Item, p: Path)
    requires ValidPath(t, p) && |p| >= 1
    ensures var h := HasChildren(At(t, p));
            |GuideStrip(Snapshot(t, p), h)| == |p| - 1 + (if h then 0 else 1)
    ensures Leaf in GuideStrip(Snapshot(t, p), HasChildren(At(t, p))) <==> !HasChildren(At(t, p))
    ensures |p| >= 2 ==>
              var g := GuideStrip(Snapshot(t, p), HasChildren(At(t, p)));
              && (g[|p| - 2] == GuideL <==> IsLastChild(t, p))
              && (g[|p| - 2] == GuideT <==> !IsLastChild(t, p))
  {
    if |p| >= 2 {
      SnapshotMarksLastChild(t, p, |p| - 1);
      assert p[..|p|] == p;
    }
  }

  /**
    The guide a node at path `p` shows at strip index i = j + 1, shallower
    than its own, reads the ancestor at depth i + 1, the path `p[..j + 2]`:
    blank when that ancestor is a last child (its vertical line has ended)
    and a vertical line otherwise.
   */
  lemma GuideAtAncestor(t: Item, p: Path, j: nat)
    requires ValidPath(t, p) && j + 2 < |p|
    ensures ValidPath(t, p[..j + 2])
    ensures var g := GuideStrip(Snapshot(t, p), HasChildren(At(t, p)));
            && (g[j] == Blank <==> IsLastChild(t, p[..j + 2]))
            && (g[j] == GuideI <==> !IsLastChild(t, p[..j + 2]))
  {
    SnapshotMarksLastChild(t, p, j + 1);
  }
}
