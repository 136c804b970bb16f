/**
  The indentation controls drawn at the left of every tree-list entry: a
  strip of guide sprites chosen from the entry's "items left per depth"
  snapshot, plus expand/collapse buttons for entries that have children.
  Sprites are reduced to their kind; the layout width of the strip is an
  opaque number supplied by the caller and only cached here.
 */
module TreeGuides {
  import opened Wrappers

  /** Leaf marker, L and T elbows, a vertical line, and the bare 22x22 spacer. */
  datatype Guide = Leaf | GuideL | GuideT | GuideI | Blank

  /** The sprite-choosing lambda of UITreeListControls::updateGuides, for strip index `depth`. */
  function SpriteFor(itemsLeftPerDepth: seq<int>, depth: nat): Guide
    requires depth <= |itemsLeftPerDepth|
  {
    if depth == |itemsLeftPerDepth| then Leaf
    else if depth == |itemsLeftPerDepth| - 1 then
      (if itemsLeftPerDepth[depth] == 1 then GuideL else GuideT)
    else
      (if itemsLeftPerDepth[depth] == 1 then Blank else GuideI)
  }

  /**
    The guide strip for a snapshot; `g[j]` is the guide at strip index j + 1.
    A stack of size s >= 1 yields s - 1 guides, plus a leaf marker at index s
    when the entry has no children. The guide next to the entry (index s - 1)
    is an L when the entry there is 1 and a T otherwise; shallower guides are
    blank when the entry is 1 and a vertical line otherwise.
   */
  function GuideStrip(itemsLeftPerDepth: seq<int>, hasChildren: bool): (g: seq<Guide>)
    ensures |itemsLeftPerDepth| == 0 ==> g == []
    ensures |itemsLeftPerDepth| > 0 ==> |g| == |itemsLeftPerDepth| - 1 + (if hasChildren then 0 else 1)
    ensures Leaf in g <==> |itemsLeftPerDepth| > 0 && !hasChildren
    ensures forall j :: 0 <= j < |g| ==> (g[j] == Leaf <==> j + 1 == |itemsLeftPerDepth|)
    ensures forall j :: 0 <= j < |g| && j + 1 == |itemsLeftPerDepth| - 1 ==>
              && (g[j] == GuideL <==> itemsLeftPerDepth[j + 1] == 1)
              && (g[j] == GuideT <==> itemsLeftPerDepth[j + 1] != 1)
    ensures forall j :: 0 <= j < |g| && j + 1 < |itemsLeftPerDepth| - 1 ==>
              && (g[j] == Blank <==> itemsLeftPerDepth[j + 1] == 1)
              && (g[j] == GuideI <==> itemsLeftPerDepth[j + 1] != 1)
  {
    var n := if |itemsLeftPerDepth| == 0 then 0
             else |itemsLeftPerDepth| - 1 + (if hasChildren then 0 else 1);
    var g := seq(n, j requires 0 <= j < n => SpriteFor(itemsLeftPerDepth, j + 1));
    assert Leaf in g ==> |itemsLeftPerDepth| > 0 && !hasChildren;
    assert |itemsLeftPerDepth| > 0 && !hasChildren ==> g[|itemsLeftPerDepth| - 1] == Leaf;
    g
  }

  /** The guide-building loop of updateGuides: strip indices 1 up to the size (plus one for a leaf). */
  method BuildGuides(itemsLeftPerDepth: seq<int>, hasChildren: bool) returns (guides: seq<Guide>)
    ensures guides == GuideStrip(itemsLeftPerDepth, hasChildren)
  {
    guides := [];
    var end := |itemsLeftPerDepth| + (if hasChildren then 0 else 1);
    var i := 1;
    while i < end
      invariant 1 <= i <= if end < 1 then 1 else end
      invariant |guides| == i - 1
      invariant forall j :: 0 <= j < |guides| ==> guides[j] == SpriteFor(itemsLeftPerDepth, j + 1)
    {
      guides := guides + [SpriteFor(itemsLeftPerDepth, i)];
      i := i + 1;
    }
  }

  // ---------------------------------------------------------------------------
  // Cached controls and the expand/collapse buttons
  // ---------------------------------------------------------------------------

  datatype Buttons = Buttons(expandActive: bool, collapseActive: bool)

  /**
    The state of one UITreeListControls: the rebuild flag, the depth the
    strip was built for, the strip, the buttons shown (None when the entry
    had no children at the last rebuild) and the cached total indent.
   */
  datatype Controls = Controls(
    waitingConstruction: bool,
    lastDepth: nat,
    guides: seq<Guide>,
    buttons: Option<Buttons>,
    totalIndent: real)

  /** A freshly constructed control strip, still waiting for its first build. */
  function NewControls(): Controls {
    Controls(true, 0, [], None, 0.0)
  }

  predicate NeedsRebuild(c: Controls, depth: nat) {
    c.waitingConstruction || depth != c.lastDepth
  }

  /** Exactly one of the two buttons is active, whenever buttons are shown. */
  predicate OneButtonActive(c: Controls) {
    c.buttons.Some? ==> c.buttons.value.expandActive != c.buttons.value.collapseActive
  }

  /**
    UITreeListControls::updateGuides. `measured` stands for the layout's
    minimum width of the rebuilt strip. The strip is rebuilt only when the
    controls wait for construction or the depth changed; otherwise nothing
    changes and the cached indent is returned. A rebuild with children
    deactivates the expand button; the collapse button is taken to be active,
    as a newly created button is.
   */
  function UpdateGuides(c: Controls, itemsLeftPerDepth: seq<int>, hasChildren: bool, measured: real): (r: (Controls, real))
    ensures !r.0.waitingConstruction && r.0.lastDepth == |itemsLeftPerDepth|
    ensures r.1 == r.0.totalIndent
    ensures !NeedsRebuild(c, |itemsLeftPerDepth|) ==> r.0 == c
    ensures NeedsRebuild(c, |itemsLeftPerDepth|) ==>
              && r.0.guides == GuideStrip(itemsLeftPerDepth, hasChildren)
              && (r.0.buttons.Some? <==> hasChildren)
              && r.1 == measured
    ensures NeedsRebuild(c, |itemsLeftPerDepth|) && hasChildren ==> r.0.buttons == Some(Buttons(false, true))
    ensures NeedsRebuild(c, |itemsLeftPerDepth|) ==> OneButtonActive(r.0)
    ensures OneButtonActive(c) ==> OneButtonActive(r.0)
  {
    if NeedsRebuild(c, |itemsLeftPerDepth|) then
      var buttons := if hasChildren then Some(Buttons(false, true)) else None;
      var c' := Controls(false, |itemsLeftPerDepth|, GuideStrip(itemsLeftPerDepth, hasChildren), buttons, measured);
      (c', measured)
    else
      (c, c.totalIndent)
  }

  /** A second call at the same depth is served from the cache, whatever `hasChildren` says. */
  lemma SecondCallCached(c: Controls, s1: seq<int>, h1: bool, m1: real, s2: seq<int>, h2: bool, m2: real)
    requires |s1| == |s2|
    ensures UpdateGuides(UpdateGuides(c, s1, h1, m1).0, s2, h2, m2) == UpdateGuides(c, s1, h1, m1)
  {
  }

  datatype ButtonId = Expand | Collapse

  /** The click handlers installed by setupUI; a click reaches a button only while buttons are shown. */
  function Click(c: Controls, b: ButtonId): (r: Controls)
    ensures r.buttons.Some? <==> c.buttons.Some?
    ensures OneButtonActive(r)
    ensures r.buttons.Some? ==> (r.buttons.value.collapseActive <==> b == Expand)
    ensures r.(buttons := c.buttons) == c
  {
    if c.buttons.None? then c
    else
      match b
      case Expand => c.(buttons := Some(Buttons(false, true)))
      case Collapse => c.(buttons := Some(Buttons(true, false)))
  }

  /** What can happen to a control strip: a tree update reaching it, or a button click. */
  datatype Event = Refresh(itemsLeftPerDepth: seq<int>, hasChildren: bool, measured: real) | Clicked(button: ButtonId)

  function Apply(c: Controls, e: Event): Controls {
    match e
    case Refresh(s, h, m) => UpdateGuides(c, s, h, m).0
    case Clicked(b) => Click(c, b)
  }

  function Run(c: Controls, es: seq<Event>): Controls
    decreases |es|
  {
    if |es| == 0 then c else Run(Apply(c, es[0]), es[1..])
  }

  /** However refreshes and clicks interleave, exactly one of the buttons stays active. */
  lemma {:induction false} RunKeepsOneButtonActive(c: Controls, es: seq<Event>)
    requires OneButtonActive(c)
    ensures OneButtonActive(Run(c, es))
    decreases |es|
  {
    if |es| > 0 {
      RunKeepsOneButtonActive(Apply(c, es[0]), es[1..]);
    }
  }

  lemma NewControlsKeepOneButtonActive(es: seq<Event>)
    ensures OneButtonActive(Run(NewControls(), es))
  {
    RunKeepsOneButtonActive(NewControls(), es);
  }
}
