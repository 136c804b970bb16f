/**
  PrefabSceneData: look up and replace one entity's data inside a prefab's
  configuration tree. A configuration node is reduced to the two keys the
  search reads, "uuid" and "children", and an opaque payload for the rest;
  `Undefined` is the empty node `ConfigNode()`. The entity factory is not
  modelled: each resync request is appended to a log.

  The path machinery (`ValidPath`, `At`, `Replace`, `Absent`) and the
  search lemmas mirror those of the tree-list module, TreeList: the two
  searches are separate implementations over different node types.
 */
module PrefabSceneData {
  import opened Wrappers
  import opened Paths

  /**
    `uuid` is the "uuid" entry when it holds a string (None when absent);
    `children` tells whether the "children" entry holds a sequence.
   */
  datatype ConfigNode<P> =
    | Undefined
    | Entry(uuid: Option<string>, children: ChildrenEntry<P>, payload: P)

  /** The "children" entry: a sequence of nodes, or absent / any other kind of value. */
  datatype ChildrenEntry<P> = NotSequence | Sequence(nodes: seq<ConfigNode<P>>)

  /** `node["uuid"].asString("")`. */
  function Uuid<P>(n: ConfigNode<P>): string {
    match n
    case Undefined => ""
    case Entry(u, _, _) => u.GetOr("")
  }

  /** The nodes the search descends into: the "children" sequence, or none. */
  function Kids<P>(n: ConfigNode<P>): seq<ConfigNode<P>> {
    if n.Entry? && n.children.Sequence? then n.children.nodes else []
  }

  predicate ValidPath<P>(n: ConfigNode<P>, p: Path)
    decreases p
  {
    |p| == 0 || (p[0] < |Kids(n)| && ValidPath(Kids(n)[p[0]], p[1..]))
  }

  function At<P>(n: ConfigNode<P>, p: Path): ConfigNode<P>
    requires ValidPath(n, p)
    decreases p
  {
    if |p| == 0 then n else At(Kids(n)[p[0]], p[1..])
  }

  /** `*result = ConfigNode(data)` through the pointer the search returned. */
  function Replace<P>(n: ConfigNode<P>, p: Path, u: ConfigNode<P>): (r: ConfigNode<P>)
    requires ValidPath(n, p)
    ensures ValidPath(r, p) && At(r, p) == u
    decreases p
  {
    if |p| == 0 then u
    else n.(children := Sequence(Kids(n)[p[0] := Replace(Kids(n)[p[0]], p[1..], u)]))
  }

  /** No node the search can reach has uuid `id`. */
  ghost predicate Absent<P>(n: ConfigNode<P>, id: string) {
    forall q :: ValidPath(n, q) ==> Uuid(At(n, q)) != id
  }

  // ---------------------------------------------------------------------------
  // Search
  // ---------------------------------------------------------------------------

  /**
    PrefabSceneData::findEntity: the node itself when its uuid reads as `id`,
    otherwise the first hit among its "children" when that is a sequence,
    tried in order; None stands for nullptr.
   */
  function FindEntity<P>(n: ConfigNode<P>, id: string): (r: Option<Path>)
    ensures r.Some? ==> ValidPath(n, r.value) && Uuid(At(n, r.value)) == id
    decreases n, 1
  {
    if Uuid(n) == id then Some([]) else FindInChildren(n, 0, id)
  }

  function FindInChildren<P>(n: ConfigNode<P>, i: nat, id: string): (r: Option<Path>)
    requires i <= |Kids(n)|
    ensures r.Some? ==> |r.value| > 0 && i <= r.value[0]
    ensures r.Some? ==> ValidPath(n, r.value) && Uuid(At(n, r.value)) == id
    decreases n, 0, |Kids(n)| - i
  {
    if i == |Kids(n)| then None
    else
      match FindEntity(Kids(n)[i], id)
      case Some(q) => Some([i] + q)
      case None => FindInChildren(n, i + 1, id)
  }

  /** A node without a "uuid" string reads as "", so a search for "" stops at it. */
  lemma UuidlessNodeMatchesEmptyId<P>(n: ConfigNode<P>)
    requires n.Undefined? || n.uuid.None?
    ensures FindEntity(n, "") == Some([])
  {
  }

  /** The node at `p` is the first node in pre-order whose uuid reads as `id`. */
  ghost predicate FirstMatch<P>(n: ConfigNode<P>, id: string, p: Path) {
    && ValidPath(n, p)
    && Uuid(At(n, p)) == id
    && forall q :: ValidPath(n, q) && Before(q, p) ==> Uuid(At(n, q)) != id
  }

  /** There is at most one first match. */
  lemma FirstMatchUnique<P>(n: ConfigNode<P>, id: string, p: Path, p': Path)
    requires FirstMatch(n, id, p) && FirstMatch(n, id, p')
    ensures p == p'
  {
    BeforeIsStrictTotal(p, p');
  }

  /** The search misses exactly when no reachable node has the uuid. */
  lemma {:induction false} FindEntityNoneIff<P>(n: ConfigNode<P>, id: string)
    ensures FindEntity(n, id).None? <==> Absent(n, id)
    decreases n, 1
  {
    if FindEntity(n, id).None? {
      FindInChildrenNone(n, 0, id);
      forall q | ValidPath(n, q) ensures Uuid(At(n, q)) != id {
      }
    }
  }

  lemma {:induction false} FindInChildrenNone<P>(n: ConfigNode<P>, i: nat, id: string)
    requires i <= |Kids(n)| && FindInChildren(n, i, id).None?
    ensures forall q :: ValidPath(n, q) && |q| > 0 && i <= q[0] ==> Uuid(At(n, q)) != id
    decreases n, 0, |Kids(n)| - i
  {
    if i < |Kids(n)| {
      FindEntityNoneIff(Kids(n)[i], id);
      FindInChildrenNone(n, i + 1, id);
      forall q | ValidPath(n, q) && |q| > 0 && i <= q[0] ensures Uuid(At(n, q)) != id {
        if q[0] == i {
          assert ValidPath(Kids(n)[i], q[1..]);
        }
      }
    }
  }

  /** A hit in the child loop comes from the first child whose own search hits. */
  lemma {:induction false} FindInChildrenHit<P>(n: ConfigNode<P>, i: nat, id: string, p: Path)
    requires i <= |Kids(n)| && FindInChildren(n, i, id) == Some(p)
    ensures p[0] < |Kids(n)| && FindEntity(Kids(n)[p[0]], id) == Some(p[1..])
    ensures forall j :: i <= j < p[0] ==> FindEntity(Kids(n)[j], id).None?
    decreases |Kids(n)| - i
  {
    match FindEntity(Kids(n)[i], id)
    case Some(q) =>
      assert p == [i] + q;
    case None =>
      FindInChildrenHit(n, i + 1, id, p);
  }

  /** A hit is the first match in pre-order. */
  lemma {:induction false} FindEntityIsFirst<P>(n: ConfigNode<P>, id: string, p: Path)
    requires FindEntity(n, id) == Some(p)
    ensures FirstMatch(n, id, p)
    decreases n
  {
    if p != [] {
      FindInChildrenHit(n, 0, id, p);
      FindEntityIsFirst(Kids(n)[p[0]], id, p[1..]);
      forall q | ValidPath(n, q) && Before(q, p) ensures Uuid(At(n, q)) != id {
        if q != [] && q[0] < p[0] {
          FindEntityNoneIff(Kids(n)[q[0]], id);
          assert ValidPath(Kids(n)[q[0]], q[1..]);
        }
      }
    }
  }

  /** findEntity returns the first match when there is one, and nullptr otherwise. */
  lemma FindEntitySpec<P>(n: ConfigNode<P>, id: string)
    ensures FindEntity(n, id).None? <==> Absent(n, id)
    ensures forall p :: FindEntity(n, id) == Some(p) <==> FirstMatch(n, id, p)
  {
    FindEntityNoneIff(n, id);
    forall p ensures FindEntity(n, id) == Some(p) <==> FirstMatch(n, id, p) {
      if FindEntity(n, id) == Some(p) {
        FindEntityIsFirst(n, id, p);
      } else if FirstMatch(n, id, p) {
        match FindEntity(n, id)
        case Some(p') =>
          FindEntityIsFirst(n, id, p');
          FirstMatchUnique(n, id, p, p');
        case None =>
      }
    }
  }

  // ---------------------------------------------------------------------------
  // The frame of a replacement
  // ---------------------------------------------------------------------------

  /**
    Outside the replaced subtree every node keeps its path; nodes not above
    it are untouched, and each node above it is the same node with only its
    "children" sequence rebuilt, of the same length.
   */
  lemma {:induction false} ReplaceOutside<P>(n: ConfigNode<P>, p: Path, u: ConfigNode<P>, q: Path)
    requires ValidPath(n, p) && ValidPath(n, q) && !IsPrefix(p, q)
    ensures ValidPath(Replace(n, p, u), q)
    ensures Uuid(At(Replace(n, p, u), q)) == Uuid(At(n, q))
    ensures |Kids(At(Replace(n, p, u), q))| == |Kids(At(n, q))|
    ensures At(n, q).Entry? ==> At(Replace(n, p, u), q).Entry? && At(Replace(n, p, u), q).payload == At(n, q).payload
    ensures At(n, q).Entry? ==> At(Replace(n, p, u), q).uuid == At(n, q).uuid
    ensures IsPrefix(q, p) ==> At(n, q).Entry?
    ensures IsPrefix(q, p) ==>
              At(Replace(n, p, u), q) == At(n, q).(children := Sequence(Kids(At(Replace(n, p, u), q))))
    ensures !IsPrefix(q, p) ==> At(Replace(n, p, u), q) == At(n, q)
    decreases q
  {
    if |q| > 0 && q[0] == p[0] {
      PrefixStep(p, q);
      PrefixStep(q, p);
      ReplaceOutside(Kids(n)[p[0]], p[1..], u, q[1..]);
    }
  }

  /** Replacing with a node whose uuid is `id` keeps the first match where it was. */
  lemma {:induction false} FindAfterReplace<P>(n: ConfigNode<P>, p: Path, u: ConfigNode<P>, id: string)
    requires FindEntity(n, id) == Some(p) && Uuid(u) == id
    ensures FindEntity(Replace(n, p, u), id) == Some(p)
    decreases n
  {
    if p != [] {
      FindInChildrenHit(n, 0, id, p);
      FindAfterReplace(Kids(n)[p[0]], p[1..], u, id);
      FindInChildrenAfterReplace(n, 0, p, u, id);
    }
  }

  lemma {:induction false} FindInChildrenAfterReplace<P>(n: ConfigNode<P>, i: nat, p: Path, u: ConfigNode<P>, id: string)
    requires |p| > 0 && ValidPath(n, p) && i <= p[0]
    requires forall j :: i <= j < p[0] ==> FindEntity(Kids(n)[j], id).None?
    requires FindEntity(Replace(Kids(n)[p[0]], p[1..], u), id) == Some(p[1..])
    ensures FindInChildren(Replace(n, p, u), i, id) == Some(p)
    decreases p[0] - i
  {
    var r := Replace(n, p, u);
    assert Kids(r) == Kids(n)[p[0] := Replace(Kids(n)[p[0]], p[1..], u)];
    if i < p[0] {
      FindInChildrenAfterReplace(n, i + 1, p, u, id);
    } else {
      assert [p[0]] + p[1..] == p;
    }
  }

  // ---------------------------------------------------------------------------
  // The scene-data operations
  // ---------------------------------------------------------------------------

  /** A request to the entity factory to resync live entities from the prefab tree. */
  datatype FactoryCall<P> = UpdateEntityTree(root: ConfigNode<P>)

  /** The prefab's configuration tree and the factory requests issued so far. */
  datatype Scene<P> = Scene(root: ConfigNode<P>, factoryCalls: seq<FactoryCall<P>>)

  /**
    PrefabSceneData::getEntityData: a copy of the first node whose uuid reads
    as `id`, or the empty node when there is none; a miss is not an error.
   */
  function GetEntityData<P>(sc: Scene<P>, id: string): (r: ConfigNode<P>)
    ensures Absent(sc.root, id) ==> r == Undefined
    ensures !Absent(sc.root, id) ==> Uuid(r) == id
    ensures forall p :: FirstMatch(sc.root, id, p) ==> r == At(sc.root, p)
  {
    FindEntitySpec(sc.root, id);
    match FindEntity(sc.root, id)
    case Some(p) => At(sc.root, p)
    case None => Undefined
  }

  /**
    PrefabSceneData::reloadEntity: replace the first node whose uuid reads as
    `id` by `data`, leave the tree alone when there is none, and in both
    cases issue exactly one resync request carrying the resulting tree.
   */
  function ReloadEntity<P>(sc: Scene<P>, id: string, data: ConfigNode<P>): (r: Scene<P>)
    ensures |r.factoryCalls| == |sc.factoryCalls| + 1
    ensures r.factoryCalls[..|sc.factoryCalls|] == sc.factoryCalls
    ensures r.factoryCalls[|sc.factoryCalls|] == UpdateEntityTree(r.root)
    ensures Absent(sc.root, id) ==> r.root == sc.root
    ensures forall p :: FirstMatch(sc.root, id, p) ==> ValidPath(r.root, p) && At(r.root, p) == data
  {
    FindEntitySpec(sc.root, id);
    var root := match FindEntity(sc.root, id)
                case Some(p) => Replace(sc.root, p, data)
                case None => sc.root;
    Scene(root, sc.factoryCalls + [UpdateEntityTree(root)])
  }

  /**
    Everything outside the reloaded subtree is unchanged: nodes not above it
    are identical, and each node above it differs only in its "children"
    sequence, which keeps its length (its uuid entry and payload included).
   */
  lemma ReloadEntityFrame<P>(sc: Scene<P>, id: string, data: ConfigNode<P>, p: Path, q: Path)
    requires FirstMatch(sc.root, id, p) && ValidPath(sc.root, q) && !IsPrefix(p, q)
    ensures var r := ReloadEntity(sc, id, data).root;
            && ValidPath(r, q)
            && Uuid(At(r, q)) == Uuid(At(sc.root, q))
            && |Kids(At(r, q))| == |Kids(At(sc.root, q))|
            && (At(sc.root, q).Entry? ==> At(r, q).Entry? && At(r, q).payload == At(sc.root, q).payload)
            && (At(sc.root, q).Entry? ==> At(r, q).uuid == At(sc.root, q).uuid)
            && (IsPrefix(q, p) ==> At(sc.root, q).Entry?)
            && (IsPrefix(q, p) ==> At(r, q) == At(sc.root, q).(children := Sequence(Kids(At(r, q)))))
            && (!IsPrefix(q, p) ==> At(r, q) == At(sc.root, q))
  {
    FindEntitySpec(sc.root, id);
    ReplaceOutside(sc.root, p, data, q);
  }

  /**
    After a reload that hit, with `data` carrying the same uuid, reading the
    entity back returns `data`: every node before it in pre-order is
    untouched and still does not match.
   */
  lemma ReloadThenGet<P>(sc: Scene<P>, id: string, data: ConfigNode<P>)
    requires !Absent(sc.root, id) && Uuid(data) == id
    ensures GetEntityData(ReloadEntity(sc, id, data), id) == data
  {
    FindEntitySpec(sc.root, id);
    var p := FindEntity(sc.root, id).value;
    FindAfterReplace(sc.root, p, data, id);
    var r := ReloadEntity(sc, id, data);
    FindEntitySpec(r.root, id);
  }
}
