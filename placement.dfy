/** Where a dragged component is docked when the mouse button is released over a drop button
    (the decision part of wxIFMDefaultDockingPlugin::OnDragEnd, src/ifm/dragndrop.cpp), and how a
    "dock next to this child" request is adjusted before the container handles it
    (wxIFMDefaultDockingPlugin::OnDock). Both are pure functions of the facts they inspect. */
module DockPlacement {
  import opened IfmDefs

  /** The nine drop buttons: four at the frame edges, four around the component or content
      area under the mouse, and the centre "tab" button (IFM_DOCK_ID_*). */
  datatype DockId = FrameLeft | FrameTop | FrameRight | FrameBottom | Left | Top | Right | Bottom | Tab {
    predicate IsFrame() { FrameLeft? || FrameTop? || FrameRight? || FrameBottom? }
  }

  /** The frame edge a top-level container is attached to (IFM_ORIENTATION_*);
      OrientOther stands for every value that is none of the four edges. */
  datatype Orientation = OrientTop | OrientBottom | OrientLeft | OrientRight | OrientOther

  datatype Side = West | North | East | South

  /** The side a button points to; the tab button points to none. */
  function SideOf(id: DockId): Option<Side> {
    match id
    case FrameLeft | Left => Some(West)
    case FrameTop | Top => Some(North)
    case FrameRight | Right => Some(East)
    case FrameBottom | Bottom => Some(South)
    case Tab => None
  }

  /** The frame edge named by an orientation. */
  function EdgeOf(o: Orientation): Option<Side> {
    match o
    case OrientLeft => Some(West)
    case OrientTop => Some(North)
    case OrientRight => Some(East)
    case OrientBottom => Some(South)
    case OrientOther => None
  }

  /** Children of a horizontal container run West to East, of a vertical one North to South. */
  predicate OnAxis(a: Alignment, s: Side) {
    (a == Horizontal && (s == West || s == East)) || (a == Vertical && (s == North || s == South))
  }

  /** The button asks to put the component beside the whole container, across its layout axis. */
  predicate DropsBeside(a: Alignment, id: DockId) {
    (a == Vertical && (id == Left || id == Right)) || (a == Horizontal && (id == Top || id == Bottom))
  }

  /** The button asks to put the component at one end of the container's row of children. */
  predicate DropsAtEnd(a: Alignment, id: DockId) {
    (a == Vertical && (id == Top || id == Bottom)) || (a == Horizontal && (id == Left || id == Right))
  }

  /** What the drop logic reads of a component on the path from the button's component upward:
      its type, alignment, the orientation stored in its container data, whether it is docked,
      how many children it has, whether it is in the interface's list of top-level containers,
      and its position among its parent's children (meaningful only when it has a parent). */
  datatype Node = Node(kind: ComponentType, alignment: Alignment, orientation: Orientation,
                       docked: bool, childCount: nat, isTopContainer: bool, indexInParent: int)

  /** The docking requests OnDragEnd sends. `level` names a component by its distance up the
      chain from the button's component (0 is that component, 1 its parent, 2 its grandparent).
      `newContainer` says that a new container is created, given the layout, and the dragged
      component docked into it at index 0; otherwise the dragged component, which is then itself
      a container, receives the layout. */
  datatype Plan =
    | ToFrame(alignment: Alignment, orientation: Orientation, index: int, newContainer: bool)
    | BesideTopContainer(level: nat, alignment: Alignment, orientation: Orientation, before: bool, newContainer: bool)
    | Dock(level: nat, index: int)
    | DockWhere(level: nat, index: int, where: DockId)
    | NoDock

  /** OnDragEnd docks only when the mouse was over a button, and not over the tab button
      without a component. */
  predicate Drops(id: DockId, onComponent: bool) {
    !(id == Tab && !onComponent)
  }

  /** Alignment and orientation given to a container dropped on an edge button. */
  function FrameLayout(id: DockId): (Alignment, Orientation)
    requires id != Tab
  {
    match id
    case FrameTop | Top => (Horizontal, OrientTop)
    case FrameBottom | Bottom => (Horizontal, OrientBottom)
    case FrameLeft | Left => (Vertical, OrientLeft)
    case FrameRight | Right => (Vertical, OrientRight)
  }

  /** The component the drop is aimed at: the button's component, or, for a panel that is the only
      child of a top-level container and a button across that container's axis, the container. */
  function DestinationLevel(id: DockId, chain: seq<Node>): (k: nat)
    requires chain != []
    ensures k < |chain| && k <= 1
    ensures k == 1 <==>
              (&& chain[0].kind == Panel && |chain| > 1
               && chain[1].isTopContainer && chain[1].childCount == 1
               && DropsBeside(chain[1].alignment, id))
  {
    if chain[0].kind == Panel && |chain| > 1 && chain[1].isTopContainer && chain[1].childCount == 1
       && DropsBeside(chain[1].alignment, id)
    then 1 else 0
  }

  /** The docking request for a drop on button `id`. `chain` lists the button's component and its
      ancestors (empty when the button has no component); `newContainer` is false exactly when the
      dragged component is itself a container. */
  function DropPlan(id: DockId, chain: seq<Node>, newContainer: bool): (p: Plan)
    requires Drops(id, chain != [])
    ensures p.BesideTopContainer? || p.Dock? || p.DockWhere? ==> p.level < |chain|
  {
    if chain == [] then
      var layout := FrameLayout(id);
      ToFrame(layout.0, layout.1, if id.IsFrame() then 0 else -1, newContainer)
    else
      var k := DestinationLevel(id, chain);
      var d := chain[k];
      if d.kind == Container then
        if DropsBeside(d.alignment, id) then
          if !d.docked then
            var before := if d.alignment == Vertical then id == Left else id == Top;
            var inverted := d.orientation == OrientBottom || d.orientation == OrientRight;
            BesideTopContainer(k, d.alignment, d.orientation, if inverted then !before else before, newContainer)
          else
            DockWhere(k, 0, id)
        else if DropsAtEnd(d.alignment, id) then
          var index := if d.alignment == Vertical then (if id == Top then 0 else -1)
                       else (if id == Left then 0 else -1);
          Dock(k, index)
        else
          NoDock
      else if d.kind == Panel && id == Tab then
        Dock(k, DefaultIndex)
      else if k + 1 < |chain| then
        DockWhere(k + 1, d.indexInParent, id)
      else
        NoDock
  }

  /** The side of an existing top-level container on which a container inserted next to it in
      the top-level list appears. The list for an edge runs from that edge inward, so for
      containers on the bottom or right edge "before" is the south or east side, and otherwise
      the north or west side. */
  function InsertedSide(alignment: Alignment, orientation: Orientation, before: bool): Side {
    var fromFarEdge := orientation == OrientBottom || orientation == OrientRight;
    if alignment == Vertical then (if before != fromFarEdge then West else East)
    else (if before != fromFarEdge then North else South)
  }

  /** The end of a container's row of children that index 0 (first) or -1 (last) names. */
  function EndSide(alignment: Alignment, index: int): Side {
    if alignment == Vertical then (if index == 0 then North else South)
    else (if index == 0 then West else East)
  }

  /** A drop on a button without a component makes a top-level container attached to the edge the
      button points to, laying its children out along that edge; frame buttons put it first in the
      top-level list (outermost), the content-area buttons last (innermost). */
  lemma FrameDropFacesButton(id: DockId, newContainer: bool)
    requires id != Tab
    ensures var p := DropPlan(id, [], newContainer);
      && p.ToFrame? && p.newContainer == newContainer
      && EdgeOf(p.orientation) == SideOf(id)
      && !OnAxis(p.alignment, SideOf(id).value) && p.alignment != AlignNone
      && (p.index == 0 <==> id.IsFrame())
      && (!id.IsFrame() ==> p.index == DefaultIndex)
  {
  }

  /** A drop beside an undocked top-level container lands on the side the button points to,
      with the new container taking over the destination's layout. */
  lemma BesideDropLandsOnButtonSide(id: DockId, chain: seq<Node>, newContainer: bool)
    requires chain != []
    ensures var p := DropPlan(id, chain, newContainer);
      p.BesideTopContainer? ==>
        && SideOf(id).Some?
        && InsertedSide(p.alignment, p.orientation, p.before) == SideOf(id).value
        && p.alignment == chain[p.level].alignment && p.orientation == chain[p.level].orientation
        && chain[p.level].kind == Container && !chain[p.level].docked
        && p.newContainer == newContainer
  {
  }

  /** A drop on a container's top/bottom (vertical) or left/right (horizontal) button docks the
      component at the end of its children that the button points to. */
  lemma EndDropLandsOnButtonSide(id: DockId, chain: seq<Node>, newContainer: bool)
    requires chain != []
    ensures var p := DropPlan(id, chain, newContainer);
      p.Dock? && chain[p.level].kind == Container ==>
        && SideOf(id).Some?
        && OnAxis(chain[p.level].alignment, SideOf(id).value)
        && EndSide(chain[p.level].alignment, p.index) == SideOf(id).value
        && (p.index == 0 || p.index == DefaultIndex)
  {
  }

  /** Which request a drop on a component sends, for every button and chain: with `d` the
      destination, a container gets a new top-level container beside it when it is undocked and
      the button points across its axis, a side request when it is docked, and an end-of-row dock
      along its axis; a panel gets the tab; anything else falls back to a side request to the
      destination's parent, and nothing is docked in the remaining cases. */
  lemma DropPlanChoosesKind(id: DockId, chain: seq<Node>, newContainer: bool)
    requires chain != []
    ensures var k := DestinationLevel(id, chain);
      var d := chain[k];
      var p := DropPlan(id, chain, newContainer);
      var fallback := d.kind != Container && !(d.kind == Panel && id == Tab);
      && (p.BesideTopContainer? <==> d.kind == Container && DropsBeside(d.alignment, id) && !d.docked)
      && (p.BesideTopContainer? ==> p.level == k && p.newContainer == newContainer)
      && (d.kind == Container && DropsBeside(d.alignment, id) && d.docked <==> p == DockWhere(k, 0, id))
      && (p.Dock? <==> (d.kind == Container && DropsAtEnd(d.alignment, id)) || (d.kind == Panel && id == Tab))
      && (p.Dock? ==> p.level == k)
      && (d.kind == Panel && id == Tab ==> p == Dock(k, DefaultIndex))
      && (fallback && k + 1 < |chain| <==> p == DockWhere(k + 1, d.indexInParent, id))
      && (p.DockWhere? ==> p.where == id)
      && (p.NoDock? <==>
            || (d.kind == Container && !DropsBeside(d.alignment, id) && !DropsAtEnd(d.alignment, id))
            || (fallback && k + 1 >= |chain|))
      && !p.ToFrame?
  {
  }

  /** The tab button over a panel appends the component to the panel as a tab; over a container
      it docks nothing. */
  lemma TabDropAppendsTab(chain: seq<Node>, newContainer: bool)
    requires chain != []
    ensures chain[0].kind == Panel ==> DropPlan(Tab, chain, newContainer) == Dock(0, DefaultIndex)
    ensures chain[0].kind == Container ==> DropPlan(Tab, chain, newContainer) == NoDock
  {
  }

  /** How OnDock treats a docking request that names the side `where` of the child at `index`:
      pass it on to the container with an index (PassOn), turn a single-child container to the
      other alignment and pass it on (Turn), or wrap the child at `index` in a new container of
      the other alignment and dock the component into that (Split). */
  datatype DockOutcome =
    | PassOn(index: int)
    | Turn(alignment: Alignment)
    | Split(alignment: Alignment, index: int)

  function AdjustDock(where: DockId, index: int, alignment: Alignment, childCount: nat): (r: DockOutcome)
    ensures r.Turn? <==> DropsBeside(alignment, where) && childCount == 1
    ensures r.Split? <==> DropsBeside(alignment, where) && childCount != 1
    ensures r.Split? ==> r.index == index
    ensures r.PassOn? ==> r.index == index || r.index == index + 1
    ensures r.PassOn? && r.index == index + 1 <==>
              (&& !where.IsFrame()
               && SideOf(where) == Some(if alignment == Horizontal then East else South)
               && OnAxis(alignment, SideOf(where).value))
  {
    if (alignment == Horizontal && where == Right) || (alignment == Vertical && where == Bottom) then
      PassOn(index + 1)
    else if DropsBeside(alignment, where) then
      if childCount == 1 then
        Turn(if alignment == Horizontal then Vertical else if alignment == Vertical then Horizontal else alignment)
      else
        Split(if alignment == Horizontal then Vertical else Horizontal, index)
    else
      PassOn(index)
  }

  /** Along the container's axis, the component is docked just before the child at `index` for a
      west or north side and just after it for an east or south side; the index moves by exactly
      one in the second case and not at all in the first. */
  lemma AlongAxisDockLandsBesideChild(where: DockId, index: int, alignment: Alignment, childCount: nat)
    requires DropsAtEnd(alignment, where)
    ensures SideOf(where).Some? && OnAxis(alignment, SideOf(where).value)
    ensures var s := SideOf(where).value;
      AdjustDock(where, index, alignment, childCount) == PassOn(if s == East || s == South then index + 1 else index)
  {
  }

  /** Across the container's axis the request is never passed on as it is: a single child turns
      the container, otherwise the child is wrapped; either way the resulting container runs
      along the requested side. */
  lemma AcrossAxisDockTurnsOrSplits(where: DockId, index: int, alignment: Alignment, childCount: nat)
    requires DropsBeside(alignment, where)
    ensures var r := AdjustDock(where, index, alignment, childCount);
      && !r.PassOn?
      && (r.Turn? <==> childCount == 1)
      && (r.Split? ==> r.index == index)
      && r.alignment != alignment && r.alignment != AlignNone
      && DropsAtEnd(r.alignment, where)
  {
  }

  /** After a split, the request OnDock sends to the new container (index 0, same side) is
      passed on without a further split, at index 0 or 1. */
  lemma SplitRedispatchSettles(where: DockId, index: int, alignment: Alignment, childCount: nat, newCount: nat)
    requires AdjustDock(where, index, alignment, childCount).Split?
    ensures var c := AdjustDock(where, index, alignment, childCount).alignment;
      var r := AdjustDock(where, 0, c, newCount);
      r.PassOn? && (r.index == 0 || r.index == 1)
  {
  }

  /** Requests naming a frame button or the tab button are passed on unchanged. */
  lemma FrameAndTabRequestsPassOn(where: DockId, index: int, alignment: Alignment, childCount: nat)
    requires where.IsFrame() || where == Tab
    ensures AdjustDock(where, index, alignment, childCount) == PassOn(index)
  {
  }

  /** The generic fallback of OnDragEnd followed by OnDock: a drop on a side of a component whose
      parent lays its children out along that side puts the dragged component directly before
      (west/north) or after (east/south) the component in its parent. */
  lemma FallbackDropLandsNextToComponent(id: DockId, chain: seq<Node>, newContainer: bool)
    requires chain != [] && Drops(id, true)
    requires DropPlan(id, chain, newContainer).DockWhere?
    requires var p := DropPlan(id, chain, newContainer); p.level > 0 && DropsAtEnd(chain[p.level].alignment, id)
    ensures var p := DropPlan(id, chain, newContainer);
      var below := chain[p.level - 1];
      var s := SideOf(id).value;
      AdjustDock(id, p.index, chain[p.level].alignment, chain[p.level].childCount)
        == PassOn(if s == East || s == South then below.indexInParent + 1 else below.indexInParent)
  {
    var p := DropPlan(id, chain, newContainer);
    var k := DestinationLevel(id, chain);
    assert p.level == k + 1 && p.index == chain[k].indexInParent;
    AlongAxisDockLandsBesideChild(id, p.index, chain[p.level].alignment, chain[p.level].childCount);
  }
}
