# Tree list and prefab scene data: a Dafny model

This project models two small tree-manipulation cores of the Halley engine.

- **The logical tree behind `UITreeList`.** Every list entry is a
  `UITreeListItem`, which has an id, the widgets it owns and its children.
  `addTreeItem` attaches a new entry under the node that `tryFindId` finds
  for the parent id, or under the root when the search misses.
  `updateTree` walks the tree in pre-order and keeps an "items left per
  depth" stack. Each entry that owns widgets gets a snapshot of that stack,
  and `UITreeListControls::updateGuides` turns the snapshot into a strip of
  indentation guides: a leaf marker, an L or T elbow, a vertical line, or a
  blank spacer. The strip is built on the first call, while the controls wait
  for construction, and afterwards rebuilt only when the depth changes.
  The expand and collapse buttons toggle each other.
- **`PrefabSceneData`.** It looks up an entity's configuration node by its
  `"uuid"` in a prefab's configuration tree, searching in pre-order through
  `"children"` sequences. `getEntityData` returns a copy of that node or an
  empty node. `reloadEntity` replaces the node in place, leaves the tree
  alone on a miss, and then always asks the entity factory to resync.

Both searches return index paths (`Paths.Path`, a `seq<nat>` of child
indices) instead of pointers. An in-place write through a pointer becomes
`Replace` at a path. "First match in pre-order" is stated with
`Paths.Before`, the strict total order in which a pre-order walk visits
paths.

Files:

- `wrappers.dfy`: `Option`.
- `paths.dfy`: paths, prefixes and the pre-order `Before` relation.
- `tree_list.dfy`: `Item`, `TryFindId`, `GetItemOrRoot`, `AddChild`,
  `AddTreeItem`, and the frame lemmas for `Replace`.
- `tree_guides.dfy`: guide kinds, `GuideStrip`, the `BuildGuides` loop, the
  cached `Controls` state, `UpdateGuides` and the button clicks.
- `tree_update.dfy`: `DoUpdateTree` with the explicit stack, a stack-free
  reference walk, and the lemmas that relate snapshots and guides to the
  shape of the tree.
- `prefab_scene_data.dfy`: `ConfigNode`, `FindEntity`, `GetEntityData`,
  `ReloadEntity`, and the log of factory requests.

One consequence of the cache that the model makes explicit: the cache is
keyed only on depth (`SecondCallCached`). So an entry whose sibling count or
child count changes while its depth stays the same keeps its old guide
strip and its old buttons.

## Model

| member | source | states |
|---|---|---|
| TreeList.TryFindId | src/engine/ui/src/ui/widgets/ui_tree_list.cpp:141-155 | Any path the search returns is valid, and the node there has the queried id. |
| TreeList.TryFindIdNoneIff | src/engine/ui/src/ui/widgets/ui_tree_list.cpp:141-155 | The search returns null exactly when no node in the subtree has the id. |
| TreeList.TryFindIdIsFirst | src/engine/ui/src/ui/widgets/ui_tree_list.cpp:143-152 | The hit is the first match in pre-order: the node itself if it matches, otherwise the first hit among the children in order. Every node visited earlier has a different id. |
| TreeList.GetItemOrRoot | src/engine/ui/src/ui/widgets/ui_tree_list.cpp:52-59 | Always returns a valid node. It is the first node with the id when one exists, and the root when none does, so a miss is never an error. |
| TreeList.AddChild | src/engine/ui/src/ui/widgets/ui_tree_list.cpp:157-160 | Appends exactly one child at the end. Id, flag and existing children, in order, are unchanged, and the count grows by one. |
| TreeList.EmptyRootWellFormed | src/engine/ui/src/ui/widgets/ui_tree_list.cpp:133 | A new list starts well formed: its root is the defaulted `UITreeListItem`, with an empty id, no widgets and no children. |
| TreeList.AddTreeItemShape | src/engine/ui/src/ui/widgets/ui_tree_list.cpp:39-41 | Exactly one new path appears, the last child slot of the parent found by GetItemOrRoot, and it holds a new widget-owning leaf. Every old path survives with its id and flag, and only that parent's child count changes. |
| TreeList.AddTreeItemKeepsWellFormed | src/engine/ui/src/ui/widgets/ui_tree_list.cpp:39-41 | Adding an entry keeps the shape the list builds: a widget-less root and widget-owning entries everywhere below it. |
| TreeUpdate.DoUpdateTree | src/engine/ui/src/ui/widgets/ui_tree_list.cpp:168-183 | doUpdateTree leaves the items-left stack exactly as it found it, because each push is matched by a pop. |
| TreeUpdate.UpdateChildren | src/engine/ui/src/ui/widgets/ui_tree_list.cpp:177-180 | After the child loop from child i, the entries below the top are unchanged and the top has dropped by the number of children visited. |
| TreeUpdate.DoUpdateTreeIsReference | src/engine/ui/src/ui/widgets/ui_tree_list.cpp:168-182 | The stack walk makes the same updateGuides calls, in the same order, as a stack-free pre-order walk in which child k of n sees n - k on top. |
| TreeUpdate.Snapshot | src/engine/ui/src/ui/widgets/ui_tree_list.cpp:175-180 | A node's snapshot has one entry per depth, with root children at length 1, and every entry is at least 1. |
| TreeUpdate.SnapshotMarksLastChild | src/engine/ui/src/ui/widgets/ui_tree_list.cpp:175-180 | Snapshot entry j is 1 exactly when the ancestor at depth j + 1 is the last child of its parent. |
| TreeUpdate.UpdateTreeVisits | src/engine/ui/src/ui/widgets/ui_tree_list.cpp:162-171 | updateTree calls updateGuides for every widget-owning node, with that node's snapshot and child flag, and makes no other calls. |
| TreeUpdate.WellFormedVisitsHaveDepth | src/engine/ui/src/ui/widgets/ui_tree_list.cpp:170-171 | In a tree built by addTreeItem, every updateGuides call receives a stack of size at least 1. |
| TreeUpdate.GuideBesideNode | src/engine/ui/src/ui/widgets/ui_tree_list.cpp:75-102 | A node at depth d gets d - 1 guides, plus a leaf marker exactly when it has no children. From depth 2 on, the guide beside it is an L when it is its parent's last child and a T otherwise. A root child has no guide beside it. |
| TreeUpdate.GuideAtAncestor | src/engine/ui/src/ui/widgets/ui_tree_list.cpp:89-95 | At a shallower strip index i, the guide reads the ancestor at depth i + 1 (the path `p[..j + 2]` for `g[j]`). It is blank when that ancestor is a last child, and a vertical line otherwise. |
| TreeGuides.GuideStrip | src/engine/ui/src/ui/widgets/ui_tree_list.cpp:75-102 | For stack size s >= 1: s - 1 guides, plus one if there are no children. The leaf appears only at index s and only without children. At index s - 1 the guide is L iff the entry is 1, else T. Shallower guides are blank iff the entry is 1, else I. |
| TreeGuides.BuildGuides | src/engine/ui/src/ui/widgets/ui_tree_list.cpp:99-102 | The loop over indices 1 .. size (+1 without children) builds exactly the guide strip. |
| TreeGuides.UpdateGuides | src/engine/ui/src/ui/widgets/ui_tree_list.cpp:68-117 | Rebuilds only when waiting for construction or when the depth changed, and otherwise changes nothing and returns the cached indent. Afterwards the controls are built for this depth. A rebuild shows buttons iff there are children; with children it shows expand inactive and collapse active, and any rebuild leaves exactly one button active. |
| TreeGuides.SecondCallCached | src/engine/ui/src/ui/widgets/ui_tree_list.cpp:70-73 | A second call at the same depth returns the cached result and changes nothing, even when hasChildren differs. |
| TreeGuides.Click | src/engine/ui/src/ui/widgets/ui_tree_list.cpp:119-130 | An expand click deactivates expand and activates collapse, and a collapse click does the reverse. Either way exactly one button is active and nothing else changes. |
| TreeGuides.RunKeepsOneButtonActive | src/engine/ui/src/ui/widgets/ui_tree_list.cpp:104-130 | Under any interleaving of refreshes and clicks, exactly one of the two buttons stays active. |
| TreeGuides.NewControlsKeepOneButtonActive | src/engine/ui/src/ui/widgets/ui_tree_list.cpp:61-66 | From a freshly constructed control strip, every sequence of refreshes and clicks leaves exactly one button active. |
| PrefabSceneData.FindEntity | src/engine/entity/src/prefab_scene_data.cpp:34-50 | Any path the search returns is valid, and the node there has a uuid that reads as the id. |
| PrefabSceneData.UuidlessNodeMatchesEmptyId | src/engine/entity/src/prefab_scene_data.cpp:36-38 | A node with no uuid string, including the empty node, reads as "", so a search for "" returns that node itself. |
| PrefabSceneData.FindEntityNoneIff | src/engine/entity/src/prefab_scene_data.cpp:34-50 | findEntity returns null exactly when no reachable node has a uuid that reads as the id. |
| PrefabSceneData.FindEntityIsFirst | src/engine/entity/src/prefab_scene_data.cpp:36-47 | A hit is the first match in pre-order: the node itself, else the first hit among its children in order, descending only into a children sequence. |
| PrefabSceneData.FindEntitySpec | src/engine/entity/src/prefab_scene_data.cpp:34-50 | findEntity returns a path exactly when that path is the first match in pre-order, and returns null exactly when there is no match. |
| PrefabSceneData.GetEntityData | src/engine/entity/src/prefab_scene_data.cpp:15-22 | Returns the node at the first match, whose uuid reads as the id. With no match it returns the empty node and raises no error. |
| PrefabSceneData.ReloadEntity | src/engine/entity/src/prefab_scene_data.cpp:24-32 | On a hit the first match is replaced by data. On a miss the tree is unchanged. In both cases exactly one factory resync is appended, carrying the resulting tree. |
| PrefabSceneData.ReloadEntityFrame | src/engine/entity/src/prefab_scene_data.cpp:26-29 | Outside the replaced subtree every node keeps its path. Nodes not above it are identical. Each node above it is the same entry with the same uuid and payload, and only its children sequence is rebuilt, with the same length. |
| PrefabSceneData.ReloadThenGet | src/engine/entity/src/prefab_scene_data.cpp:15-32 | After a reload that hit, with data carrying the same uuid, getEntityData returns data. |

## Left out

- Widget construction and styling (`UIListItem`, `UILabel`, `UIImage`, `UIButton`, sub-styles, text renderers, `addItem`, sizer flags): UI plumbing. Each entry keeps only a "has widgets" flag.
- Sprites: reduced to the `Guide` kind. The blank spacer's 22x22 size and the images' borders are not modelled.
- Layout: `totalIndent` comes from the layout engine's minimum width. It is a `real` parameter (`measured`) that is cached, not computed. `setClickableInnerBorder` is not modelled.
- `UIList::update` and the rest of `UITreeList::update`: inherited widget behaviour, not part of this model. The walk's output is the sequence of updateGuides calls (`Visit`). Feeding each call to that node's `Controls` is `UpdateGuides`, but the per-node control state is not threaded through the tree.
- TreeGuides.NewControls: the header that initialises `waitingConstruction` and `lastDepth` is not part of this model. The model assumes a new control strip starts waiting for construction.
- TreeGuides.UpdateGuides: a rebuild without children drops the buttons from the model (`None`), because `clear()` removes them from the widget. The stale button pointers that the class keeps are not modelled. A newly created button is assumed active: the source only deactivates the expand button, so a collapse button that is active after a rebuild with children, and with it exactly one active button, rests on the widget's default active state, which is not part of this model. NewControlsKeepOneButtonActive and RunKeepsOneButtonActive rest on the same assumption.
- TreeGuides.Click: a click while no buttons are shown leaves the state unchanged. No such click can reach the handlers.
- Integer widths: child counts and stack sizes are unbounded integers. The `int` entries stay between 0 and the child count, and `size() - 1` is only evaluated when the size is at least 1, so no wrap-around can occur for child counts up to INT_MAX. The narrowing `int(children.size())` in `doUpdateTree` is not modelled: a node with more than INT_MAX children would push a wrapped entry.
- `EntityFactory::updateEntityTree`: a foreign call. The model only records that it happens, in `Scene.factoryCalls`, together with the tree it receives. The entity handle is not recorded.
- `ConfigNode` semantics: a node is reduced to its `"uuid"` string, whether `"children"` is a sequence, and an opaque payload. How `asString("")` converts a non-string uuid value is not modelled (`uuid` is `None` when the entry is absent). The non-const `operator[]` may insert undefined entries, and the model treats those as absent.
- `entity/src/system.h`: declarations, empty virtual hooks and a registration macro. The system bodies and their wall-clock timing are not shown and are non-deterministic.
- World, family bindings and reconciliation: none of that code is part of this model.
