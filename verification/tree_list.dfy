/**
  The logical tree behind a tree-list widget: every entry of the list is a
  node with an id, and entries are attached under a parent found by id.
  The widgets an entry owns are reduced to one flag, `hasWidgets`; the root
  is default-constructed and owns none.

  The path machinery (`ValidPath`, `At`, `Replace`, `Absent`) and the
  search lemmas are mirrored in PrefabSceneData, whose config-tree search
  is a separate implementation over a different node type.
 */
module TreeList {
  import opened Wrappers
  import opened Paths

  datatype Item = Item(id: string, hasWidgets: bool, children: seq<Item>)

  /** The list's root before anything is added: empty id, no widgets, no children. */
  function EmptyRoot(): Item {
    Item("", false, [])
  }

  /** The entry a brand-new list item becomes: it owns widgets and has no children. */
  function NewItem(id: string): Item {
    Item(id, true, [])
  }

  /** `!children.empty()`. */
  predicate HasChildren(t: Item) {
    |t.children| > 0
  }

  predicate ValidPath(t: Item, p: Path)
    decreases p
  {
    |p| == 0 || (p[0] < |t.children| && ValidPath(t.children[p[0]], p[1..]))
  }

  function At(t: Item, p: Path): Item
    requires ValidPath(t, p)
    decreases p
  {
    if |p| == 0 then t else At(t.children[p[0]], p[1..])
  }

  /** `t` with the subtree at `p` replaced by `u`: the in-place update through a reference. */
  function Replace(t: Item, p: Path, u: Item): (r: Item)
    requires ValidPath(t, p)
    ensures ValidPath(r, p) && At(r, p) == u
    decreases p
  {
    if |p| == 0 then u
    else t.(children := t.children[p[0] := Replace(t.children[p[0]], p[1..], u)])
  }

  /** No node reachable from `t` carries `id`. */
  ghost predicate Absent(t: Item, id: string) {
    forall q :: ValidPath(t, q) ==> At(t, q).id != id
  }

  // ---------------------------------------------------------------------------
  // Search
  // ---------------------------------------------------------------------------

  /**
    UITreeListItem::tryFindId: the node itself when its id matches, otherwise
    the first hit among the children, tried in order; None stands for nullptr.
   */
  function TryFindId(t: Item, id: string): (r: Option<Path>)
    ensures r.Some? ==> ValidPath(t, r.value) && At(t, r.value).id == id
    decreases t, 1
  {
    if id == t.id then Some([]) else FindInChildren(t, 0, id)
  }

  /** The loop over the children of `t`, starting at child `i`. */
  function FindInChildren(t: Item, i: nat, id: string): (r: Option<Path>)
    requires i <= |t.children|
    ensures r.Some? ==> |r.value| > 0 && i <= r.value[0]
    ensures r.Some? ==> ValidPath(t, r.value) && At(t, r.value).id == id
    decreases t, 0, |t.children| - i
  {
    if i == |t.children| then None
    else
      match TryFindId(t.children[i], id)
      case Some(q) => Some([i] + q)
      case None => FindInChildren(t, i + 1, id)
  }

  /** The search misses exactly when no reachable node carries the id. */
  lemma {:induction false} TryFindIdNoneIff(t: Item, id: string)
    ensures TryFindId(t, id).None? <==> Absent(t, id)
    decreases t, 1
  {
    if TryFindId(t, id).None? {
      FindInChildrenNone(t, 0, id);
      forall q | ValidPath(t, q) ensures At(t, q).id != id {
      }
    }
  }

  lemma {:induction false} FindInChildrenNone(t: Item, i: nat, id: string)
    requires i <= |t.children| && FindInChildren(t, i, id).None?
    ensures forall q :: ValidPath(t, q) && |q| > 0 && i <= q[0] ==> At(t, q).id != id
    decreases t, 0, |t.children| - i
  {
    if i < |t.children| {
      TryFindIdNoneIff(t.children[i], id);
      FindInChildrenNone(t, i + 1, id);
      forall q | ValidPath(t, q) && |q| > 0 && i <= q[0] ensures At(t, q).id != id {
        if q[0] == i {
          assert ValidPath(t.children[i], q[1..]);
        }
      }
    }
  }

  /** A hit in the child loop comes from the first child whose own search hits. */
  lemma {:induction false} FindInChildrenHit(t: Item, i: nat, id: string, p: Path)
    requires i <= |t.children| && FindInChildren(t, i, id) == Some(p)
    ensures p[0] < |t.children| && TryFindId(t.children[p[0]], id) == Some(p[1..])
    ensures forall j :: i <= j < p[0] ==> TryFindId(t.children[j], id).None?
    decreases |t.children| - i
  {
    match TryFindId(t.children[i], id)
    case Some(q) =>
      assert p == [i] + q;
    case None =>
      FindInChildrenHit(t, i + 1, id, p);
  }

  /** The hit is the first matching node in pre-order: every earlier node has another id. */
  lemma {:induction false} TryFindIdIsFirst(t: Item, id: string, p: Path)
    requires TryFindId(t, id) == Some(p)
    ensures forall q :: ValidPath(t, q) && Before(q, p) ==> At(t, q).id != id
    decreases t
  {
    if p != [] {
      FindInChildrenHit(t, 0, id, p);
      forall q | ValidPath(t, q) && Before(q, p) ensures At(t, q).id != id {
        if q != [] {
          if q[0] < p[0] {
            TryFindIdNoneIff(t.children[q[0]], id);
            assert ValidPath(t.children[q[0]], q[1..]);
          } else {
            TryFindIdIsFirst(t.children[p[0]], id, p[1..]);
          }
        }
      }
    }
  }

  /**
    UITreeList::getItemOrRoot: the node found for `id`, or the root when the
    search misses; a miss is never an error.
   */
  function GetItemOrRoot(root: Item, id: string): (p: Path)
    ensures ValidPath(root, p)
    ensures At(root, p).id == id || (p == [] && Absent(root, id))
    ensures At(root, p).id == id ==> forall q :: ValidPath(root, q) && Before(q, p) ==> At(root, q).id != id
  {
    match TryFindId(root, id)
    case Some(q) =>
      TryFindIdIsFirst(root, id, q);
      q
    case None =>
      TryFindIdNoneIff(root, id);
      []
  }

  // ---------------------------------------------------------------------------
  // Insertion
  // ---------------------------------------------------------------------------

  /** UITreeListItem::addChild: append one child at the end. */
  function AddChild(t: Item, c: Item): (r: Item)
    ensures r.id == t.id && r.hasWidgets == t.hasWidgets
    ensures |r.children| == |t.children| + 1
    ensures r.children[..|t.children|] == t.children && r.children[|t.children|] == c
  {
    t.(children := t.children + [c])
  }

  /** The logical part of UITreeList::addTreeItem: a new entry under the node found for `parentId`. */
  function AddTreeItem(root: Item, id: string, parentId: string): Item {
    var p := GetItemOrRoot(root, parentId);
    Replace(root, p, AddChild(At(root, p), NewItem(id)))
  }

  lemma {:induction false} ValidPathConcat(t: Item, p: Path, w: Path)
    requires ValidPath(t, p)
    ensures ValidPath(t, p + w) <==> ValidPath(At(t, p), w)
    ensures ValidPath(t, p + w) ==> At(t, p + w) == At(At(t, p), w)
    decreases p
  {
    if |p| > 0 {
      assert (p + w)[0] == p[0] && (p + w)[1..] == p[1..] + w;
      ValidPathConcat(t.children[p[0]], p[1..], w);
    } else {
      assert p + w == w;
    }
  }

  /** Replacing at `p` changes which paths exist only inside the subtree at `p`. */
  lemma {:induction false} ReplaceValidPath(t: Item, p: Path, u: Item, q: Path)
    requires ValidPath(t, p)
    ensures ValidPath(Replace(t, p, u), q) <==>
            (if IsPrefix(p, q) then ValidPath(u, q[|p|..]) else ValidPath(t, q))
    decreases p
  {
    if |p| > 0 && |q| > 0 && q[0] == p[0] {
      ReplaceValidPath(t.children[p[0]], p[1..], u, q[1..]);
      PrefixStep(p, q);
      if |p| <= |q| {
        assert q[|p|..] == q[1..][|p| - 1..];
      }
    }
  }

  /** Outside the replaced subtree every node keeps its path; ancestors keep id, flag and child count. */
  lemma {:induction false} ReplaceOutside(t: Item, p: Path, u: Item, q: Path)
    requires ValidPath(t, p) && ValidPath(t, q) && !IsPrefix(p, q)
    ensures ValidPath(Replace(t, p, u), q)
    ensures At(Replace(t, p, u), q).id == At(t, q).id
    ensures At(Replace(t, p, u), q).hasWidgets == At(t, q).hasWidgets
    ensures |At(Replace(t, p, u), q).children| == |At(t, q).children|
    ensures !IsPrefix(q, p) ==> At(Replace(t, p, u), q) == At(t, q)
    decreases q
  {
    ReplaceValidPath(t, p, u, q);
    if |q| > 0 && q[0] == p[0] {
      PrefixStep(p, q);
      PrefixStep(q, p);
      ReplaceOutside(t.children[p[0]], p[1..], u, q[1..]);
    }
  }

  /** Inside the replaced subtree the tree is `u`. */
  lemma {:induction false} ReplaceInside(t: Item, p: Path, u: Item, w: Path)
    requires ValidPath(t, p) && ValidPath(u, w)
    ensures ValidPath(Replace(t, p, u), p + w)
    ensures At(Replace(t, p, u), p + w) == At(u, w)
  {
    ValidPathConcat(Replace(t, p, u), p, w);
  }

  /**
    What addTreeItem does to the tree: exactly one path is new, the last
    child slot of the parent found by GetItemOrRoot, and it holds the new
    entry; every path that existed before still exists with the same id and
    flag, and only the parent's child count changes (by one).
   */
  lemma {:induction false} AddTreeItemShape(root: Item, id: string, parentId: string)
    ensures var p := GetItemOrRoot(root, parentId);
            var k := |At(root, p).children|;
            var r := AddTreeItem(root, id, parentId);
            && (forall q :: ValidPath(r, q) <==> ValidPath(root, q) || q == p + [k])
            && ValidPath(r, p + [k]) && At(r, p + [k]) == NewItem(id)
            && (forall q :: ValidPath(root, q) ==>
                  && ValidPath(r, q)
                  && At(r, q).id == At(root, q).id
                  && At(r, q).hasWidgets == At(root, q).hasWidgets
                  && |At(r, q).children| == |At(root, q).children| + (if q == p then 1 else 0))
  {
    var p := GetItemOrRoot(root, parentId);
    var old_ := At(root, p);
    var k := |old_.children|;
    var u := AddChild(old_, NewItem(id));
    var r := AddTreeItem(root, id, parentId);
    assert u.children[k] == NewItem(id);
    assert [k][1..] == [] && ValidPath(NewItem(id), []);
    assert ValidPath(u, [k]);
    assert At(u, [k]) == At(NewItem(id), []);
    ReplaceInside(root, p, u, [k]);
    forall q ensures ValidPath(r, q) <==> ValidPath(root, q) || q == p + [k] {
      ReplaceValidPath(root, p, u, q);
      if IsPrefix(p, q) {
        var w := q[|p|..];
        assert q == p + w;
        ValidPathConcat(root, p, w);
        if |w| > 0 && w[0] < k {
          assert u.children[w[0]] == old_.children[w[0]];
        }
        if |w| > 0 && w[0] == k {
          assert ValidPath(u, w) <==> |w| == 1;
          assert |w| == 1 ==> w == [k];
        }
      } else {
        assert q != p + [k];
      }
    }
    forall q | ValidPath(root, q)
      ensures ValidPath(r, q)
      ensures At(r, q).id == At(root, q).id
      ensures At(r, q).hasWidgets == At(root, q).hasWidgets
      ensures |At(r, q).children| == |At(root, q).children| + (if q == p then 1 else 0)
    {
      if IsPrefix(p, q) {
        var w := q[|p|..];
        assert q == p + w;
        ValidPathConcat(root, p, w);
        assert ValidPath(old_, w);
        assert w == [] || (ValidPath(u, w) && At(u, w) == At(old_, w)) by {
          if |w| > 0 {
            assert u.children[w[0]] == old_.children[w[0]];
          }
        }
        ReplaceInside(root, p, u, w);
        assert q == p <==> w == [];
      } else {
        ReplaceOutside(root, p, u, q);
      }
    }
  }

  /** Every node but the root owns widgets; the shape addTreeItem builds from EmptyRoot. */
  ghost predicate WellFormed(root: Item) {
    !root.hasWidgets && forall q :: ValidPath(root, q) && q != [] ==> At(root, q).hasWidgets
  }

  /** The list starts well formed: its root owns no widgets and has no children. */
  lemma EmptyRootWellFormed()
    ensures WellFormed(EmptyRoot())
  {
  }

  lemma {:induction false} AddTreeItemKeepsWellFormed(root: Item, id: string, parentId: string)
    requires WellFormed(root)
    ensures WellFormed(AddTreeItem(root, id, parentId))
  {
    AddTreeItemShape(root, id, parentId);
    var r := AddTreeItem(root, id, parentId);
    assert ValidPath(root, []);
  }
}
