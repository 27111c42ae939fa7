/** The default docking plugin (wxIFMDefaultDockingPlugin, src/ifm/dragndrop.cpp): the drag state
    machine driven by mouse and key events, the nine drop-target buttons and their visibility and
    hover state, and the handlers that turn a drop into docking requests. Events are sent to the
    interface plugin `ip` by appending them to its log; screen and client coordinates coincide. */
module Docking {
  import opened Rects
  import opened IfmDefs
  import opened DockPlacement
  import opened DropTargets
  import opened Manager

  type Width = w: int | w > 0 witness 1

  /** IFM_DRAG_DISTANCE: the drag threshold used when the system reports none. */
  const DragDistance: int

  /** IFM_DOCK_TARGET_BUTTON_WIDTH: the side of a square drop button. */
  const ButtonWidth: Width

  /** Where the five component buttons are created: off screen until first placed. */
  const OffScreen: Point := Point(3000, 3000)

  /** The status message shown while dragging. */
  const DragHelpText: string := "Hold down alt to prevent drop target buttons from moving. Hold down shift to hide drop target buttons."

  datatype KeyCode = EscapeKey | AltKey | ShiftKey | ControlKey | OtherKey(code: int)

  function Abs(n: int): nat {
    if n < 0 then -n else n
  }

  /** The pointer has moved from `click` farther than the threshold on some axis (strictly), in
      either direction. */
  predicate BeyondThreshold(click: Point, pos: Point, dragx: int, dragy: int)
    ensures BeyondThreshold(click, pos, dragx, dragy) <==>
      (|| pos.x > click.x + dragx || pos.x < click.x - dragx
       || pos.y > click.y + dragy || pos.y < click.y - dragy)
  {
    Abs(click.x - pos.x) > dragx || Abs(click.y - pos.y) > dragy
  }

  /** The centre OnShowDropTargets computes for a rectangle, with C division: a pixel of every
      non-empty rectangle, at most half its size from the top-left corner. */
  function Centre(r: Rect): (c: Point)
    ensures r.width > 0 && r.height > 0 ==> r.Contains(c)
    ensures r.width >= 0 && r.height >= 0 ==> 2 * (c.x - r.x) <= r.width && 2 * (c.y - r.y) <= r.height
  {
    Point(r.x + CDiv(r.width, 2), r.y + CDiv(r.height, 2))
  }

  /** A drop-target button (wxIFMDockTargetButton): its id, screen position, whether it is shown,
      highlighted or destroyed, and the component it targets (null for frame buttons). */
  class DockButton {
    const id: DockId
    var pos: Point
    var shown: bool
    var hover: bool
    var component: Component?
    var destroyed: bool

    constructor (pos: Point, id: DockId)
      ensures this.id == id && this.pos == pos
      ensures !shown && !hover && component == null && !destroyed
    {
      this.id := id;
      this.pos := pos;
      shown, hover, component, destroyed := false, false, null, false;
    }

    function Area(): Rect
      reads this
    {
      ButtonRect(pos, ButtonWidth)
    }

    /** Sets the highlight; the button is repainted only when the highlight changes. */
    method SetHover(h: bool) returns (repaint: bool)
      modifies this`hover
      ensures hover == h
      ensures repaint <==> old(hover) != h
    {
      repaint := hover != h;
      if hover != h {
        hover := h;
      }
    }
  }

  /** Index of the first shown button whose area contains `p`, or -1. */
  function FirstHit(bs: seq<DockButton>, p: Point): (k: int)
    reads bs
    ensures -1 <= k < |bs|
    ensures k >= 0 ==> bs[k].shown && bs[k].Area().Contains(p)
    ensures forall j :: 0 <= j < |bs| && (k == -1 || j < k) ==> !(bs[j].shown && bs[j].Area().Contains(p))
    decreases |bs|
  {
    if bs == [] then -1
    else if bs[0].shown && bs[0].Area().Contains(p) then 0
    else
      var k := FirstHit(bs[1..], p);
      if k == -1 then -1 else k + 1
  }

  /** Once the nine buttons stand where OnShowDropTargets puts them for a cross centred on
      `center`, and all of them are shown, the pointer at the centre selects the tab button. */
  lemma CentreSelectsTab(bs: seq<DockButton>, center: Point, client: Rect)
    requires |bs| == 9
    requires forall i :: 0 <= i < 9 ==> bs[i].shown && bs[i].pos == TargetPositions(center, client, ButtonWidth)[i]
    ensures FirstHit(bs, center) == 8
  {
    var ps := TargetPositions(center, client, ButtonWidth);
    CrossStandsClear(center, client, ButtonWidth);
    forall j | 0 <= j < 8
      ensures !bs[j].Area().Contains(center)
    {
      if bs[j].Area().Contains(center) {
        IntersectsIffCommonPixel(ButtonRect(ps[j], ButtonWidth), ButtonRect(ps[8], ButtonWidth));
        assert false;
      }
    }
    var k := FirstHit(bs, center);
    assert bs[8].Area().Contains(center);
  }

  /** The component the drop targets are shown for when the pointer is over `c`: the tabbed panel
      itself rather than one of its tabs. */
  function HoverTarget(c: Component?): (t: Component?)
    reads c
    ensures c == null ==> t == null
    ensures c != null && c.kind == PanelTab ==> t == c.parent
    ensures c != null && c.kind != PanelTab ==> t == c
  {
    if c != null && c.kind == PanelTab then c.parent else c
  }

  /** Position of `x` among `s`, or |s| when it is absent. */
  function IndexOf(s: seq<Component>, x: Component): (r: nat)
    ensures r <= |s|
    ensures r < |s| ==> s[r] == x
    ensures forall j :: 0 <= j < r ==> s[j] != x
    decreases |s|
  {
    if s == [] then 0
    else if s[0] == x then 0
    else 1 + IndexOf(s[1..], x)
  }

  /** Every parent of a component of `tree` is in `tree`. */
  ghost predicate ParentsIn(tree: set<Component>)
    reads tree
  {
    forall c :: c in tree && c.parent != null ==> c.parent in tree
  }

  /** What the drop logic reads of `c`; `tops` is the interface's list of top-level containers. */
  function NodeOf(c: Component, tops: seq<Component>): Node
    reads c, c.parent
  {
    Node(c.kind, c.alignment, c.orientation, c.docked, |c.children|, c in tops,
         if c.parent == null then 0 else IndexOf(c.parent.children, c))
  }

  /** `c` and up to two of its ancestors, nearest first. */
  ghost function ChainOf(c: Component, tree: set<Component>): (cs: seq<Component>)
    requires ParentsIn(tree) && c in tree
    reads tree
    ensures 1 <= |cs| <= 3 && cs[0] == c
    ensures forall j :: 0 <= j < |cs| ==> cs[j] in tree
    ensures forall j :: 0 <= j < |cs| - 1 ==> cs[j + 1] == cs[j].parent
    ensures |cs| < 3 ==> cs[|cs| - 1].parent == null
  {
    if c.parent == null then [c]
    else if c.parent.parent == null then [c, c.parent]
    else [c, c.parent, c.parent.parent]
  }

  /** The nodes of the chain of the button's component, empty when the button has none. */
  ghost function TargetNodes(b: Component?, tops: seq<Component>, tree: set<Component>): (ns: seq<Node>)
    requires ParentsIn(tree) && (b != null ==> b in tree)
    reads tree
  {
    if b == null then []
    else
      NodesOf(ChainOf(b, tree), tops, tree)
  }

  ghost function NodesOf(cs: seq<Component>, tops: seq<Component>, tree: set<Component>): (ns: seq<Node>)
    requires ParentsIn(tree) && forall c <- cs :: c in tree
    reads tree
    ensures |ns| == |cs| && forall j :: 0 <= j < |cs| ==> ns[j] == NodeOf(cs[j], tops)
  {
    if cs == [] then [] else [NodeOf(cs[0], tops)] + NodesOf(cs[1..], tops, tree)
  }

  /** The events a docking plan sends, given the components its levels name and the container
      created for it (needed when the plan asks for a new container). */
  function PlanEvents(plan: Plan, component: Component, cs: seq<Component>, made: Component?): (es: seq<IfmEvent>)
    requires plan.BesideTopContainer? || plan.Dock? || plan.DockWhere? ==> plan.level < |cs|
    requires (plan.ToFrame? || plan.BesideTopContainer?) && plan.newContainer ==> made != null
    ensures plan.NoDock? <==> es == []
    ensures (plan.ToFrame? || plan.BesideTopContainer?) && plan.newContainer ==>
      |es| == 3 && es[0] == NewContainerEvent && DockEvent(component, made, 0) in es
    ensures !((plan.ToFrame? || plan.BesideTopContainer?) && plan.newContainer) && !plan.NoDock? ==> |es| == 1
    ensures forall e <- es :: e.DockEvent? || e.DockExEvent? ==> e.component == component
    ensures plan.Dock? || plan.DockWhere? ==> (es[0].DockEvent? || es[0].DockExEvent?) && es[0].destination == cs[plan.level]
  {
    match plan
    case ToFrame(_, _, index, nc) =>
      var container: Component := if nc then made else component;
      (if nc then [NewContainerEvent] else []) + [AddTopContainerEvent(container, index)]
        + (if nc then [DockEvent(component, container, 0)] else [])
    case BesideTopContainer(k, _, _, before, nc) =>
      var container: Component := if nc then made else component;
      (if nc then [NewContainerEvent, DockEvent(component, container, 0)] else [])
        + [AddTopContainerBesideEvent(container, cs[k], before)]
    case Dock(k, index) => [DockEvent(component, cs[k], index)]
    case DockWhere(k, index, where) => [DockExEvent(component, cs[k], index, where)]
    case NoDock => []
  }

  /** What OnDragEnd sends before docking: UNDOCK for a component with a parent, REMOVETOPCONTAINER
      for a top-level container that does not float, nothing for the root of a floating window. */
  function DetachEvents(component: Component): (es: seq<IfmEvent>)
    reads component
    requires HasFloatingData(component)
    ensures |es| <= 1 && forall e <- es :: e.UndockEvent? || e.RemoveTopContainerEvent?
    ensures es == [] <==> component.parent == null && component.data[FloatingDataKey].value.floating
    ensures es != [] ==> es[0].component == component
  {
    if component.parent != null then [UndockEvent(component, None)]
    else if !component.data[FloatingDataKey].value.floating then [RemoveTopContainerEvent(component)]
    else []
  }

  /** Whether OnShowDropTargets hides the component buttons instead of placing them: the pointer
      is outside the parent's client rectangle `client` over no component, or the component under
      it is the dragged one, the dragged one's parent holding only it, the root of a floating
      window, or inside the dragged one. */
  ghost predicate Suppressed(hovered: Component?, pos: Point, dragged: Component, client: Rect, tree: set<Component>)
    requires TreeOK(tree) && dragged in tree
    requires hovered != null ==> HasFloatingData(hovered)
    reads tree, dragged, hovered
    ensures hovered == null ==> (Suppressed(hovered, pos, dragged, client, tree) <==> !client.Contains(pos))
    ensures hovered == dragged ==> Suppressed(hovered, pos, dragged, client, tree)
    ensures hovered != null && Below(tree, dragged, hovered) ==> Suppressed(hovered, pos, dragged, client, tree)
    ensures (&& hovered != null && hovered != dragged && !Below(tree, dragged, hovered) && hovered.docked
             && !(hovered == dragged.parent && |hovered.children| == 1)) ==> !Suppressed(hovered, pos, dragged, client, tree)
    ensures (&& hovered != null && hovered == dragged.parent
             && |hovered.children| == 1) ==> Suppressed(hovered, pos, dragged, client, tree)
    ensures (&& hovered != null && hovered.data[FloatingDataKey].value.floating
             && !hovered.docked) ==> Suppressed(hovered, pos, dragged, client, tree)
    ensures (&& hovered != null && hovered != dragged && !Below(tree, dragged, hovered)
             && !hovered.data[FloatingDataKey].value.floating
             && !(hovered == dragged.parent && |hovered.children| == 1)) ==> !Suppressed(hovered, pos, dragged, client, tree)
  {
    if hovered == null then !client.Contains(pos)
    else
      || hovered == dragged
      || (hovered == dragged.parent && |hovered.children| == 1)
      || (hovered.data[FloatingDataKey].value.floating && !hovered.docked)
      || Below(tree, dragged, hovered)
  }

  /** Decides Suppressed the way the handler does, walking the tree with IsChildOf. */
  method HidesComponentButtons(hovered: Component?, pos: Point, dragged: Component, client: Rect,
                               ghost tree: set<Component>) returns (suppress: bool)
    requires TreeOK(tree) && dragged in tree
    requires hovered != null ==> HasFloatingData(hovered)
    ensures suppress == Suppressed(hovered, pos, dragged, client, tree)
  {
    suppress := false;
    if !client.Contains(pos) && hovered == null {
      suppress := true;
    } else if hovered != null {
      var inside := Component.IsChildOf(dragged, hovered, tree);
      suppress := hovered == dragged || (hovered == dragged.parent && |hovered.children| == 1)
        || (hovered.data[FloatingDataKey].value.floating && !hovered.docked) || inside;
    }
  }

  class DockingPlugin {
    const manager: InterfaceManager
    const ip: InterfacePlugin
    var realtime: bool
    var captured: bool
    var dragging: bool
    var dragx: int
    var dragy: int
    var clickPos: Point
    var oldPos: Point
    var offset: Point
    var oldBtn: DockButton?
    var buttons: seq<DockButton>
    /** The function-local statics: `last` of ShowFrameDropButtons and ShowComponentDropButtons,
        and `last_component`/`last_component_set` of OnDrag. */
    var frameShown: bool
    var componentShown: bool
    var lastComponent: Component?
    var lastComponentSet: bool

    /** The buttons are absent or the nine of ButtonOrder, in that order; without buttons nothing
        is shown or remembered as hovered; the frame buttons are shown exactly when frameShown
        says so and the component buttons when componentShown does; only the button last under
        the pointer can be highlighted; a plugin that captured the mouse holds the manager's
        capture. */
    ghost predicate Valid()
      reads this`captured, this`buttons, this`frameShown, this`componentShown, this`oldBtn
      reads buttons`shown, buttons`hover, manager
    {
      && manager.Valid()
      && (captured ==> manager.IsInputCaptured())
      && ButtonsValid() && ShownValid() && HoverValid()
    }

    /** The button list is empty or the nine buttons of ButtonOrder, distinct and in that order;
        without buttons nothing is shown or remembered. */
    predicate ButtonsValid()
      reads this`buttons, this`frameShown, this`componentShown, this`oldBtn
    {
      && (|buttons| == 0 || |buttons| == 9)
      && (forall i :: 0 <= i < |buttons| ==> (buttons[i].id.IsFrame() <==> i < 4))
      && (forall i, j :: 0 <= i < j < |buttons| ==> buttons[i] != buttons[j])
      && (|buttons| == 0 ==> !frameShown && !componentShown && oldBtn == null)
      && (oldBtn != null ==> oldBtn in buttons)
    }

    /** The first four buttons are shown as frameShown says, the rest as componentShown says. */
    ghost predicate ShownValid()
      reads this`buttons, this`frameShown, this`componentShown, buttons`shown
    {
      forall i :: 0 <= i < |buttons| ==> buttons[i].shown == (if i < 4 then frameShown else componentShown)
    }

    /** Only the remembered button can be highlighted. */
    ghost predicate HoverValid()
      reads this`buttons, this`oldBtn, buttons`hover
    {
      forall i :: 0 <= i < |buttons| && buttons[i].hover ==> buttons[i] == oldBtn
    }

    constructor (manager: InterfaceManager, ip: InterfacePlugin)
      requires manager.Valid()
      ensures Valid() && this.manager == manager && this.ip == ip
      ensures !realtime && !captured && !dragging && dragx == 0 && dragy == 0 && oldBtn == null && buttons == []
    {
      this.manager := manager;
      this.ip := ip;
      realtime, captured, dragging, dragx, dragy := false, false, false, 0, 0;
      clickPos, oldPos, offset := Point(0, 0), Point(0, 0), Point(0, 0);
      oldBtn, buttons := null, [];
      frameShown, componentShown, lastComponent, lastComponentSet := false, false, null, false;
    }

    /** Left button released: ends the capture if there is one, and a drag if there is one,
        sending ENDDRAG (not cancelled); otherwise the event is skipped. */
    method OnLeftUp(component: Component?, pos: Point, mods: Modifiers) returns (skip: bool)
      requires Valid()
      modifies this`captured, this`dragging, ip`log
      modifies manager`capturedComponent, manager`capturedType, manager`floatingCapture
      ensures Valid() && !captured && !dragging
      ensures old(captured) ==> !manager.IsInputCaptured()
      ensures !old(captured) ==> manager.capturedComponent == old(manager.capturedComponent)
      ensures old(dragging) ==> !skip && ip.log == old(ip.log) + [DragEvent(EndDrag, component, pos, mods, realtime, false)]
      ensures !old(dragging) ==> skip && ip.log == old(ip.log)
    {
      if captured {
        captured := false;
        manager.ReleaseInput();
      }
      skip := false;
      if dragging {
        dragging := false;
        ip.Process(DragEvent(EndDrag, component, pos, mods, realtime, false));
      } else {
        skip := true;
      }
    }

    /** Mouse moved: while dragging, sends DRAGGING; while captured and not dragging, sends
        BEGINDRAG once the pointer is beyond the threshold; otherwise skips. The state is not
        changed here. */
    method OnMouseMove(component: Component?, pos: Point, mods: Modifiers) returns (skip: bool)
      requires Valid()
      modifies ip`log
      ensures dragging ==> !skip && ip.log == old(ip.log) + [DragEvent(Dragging, component, pos, mods, realtime, false)]
      ensures !dragging && captured && BeyondThreshold(clickPos, pos, dragx, dragy) ==>
        !skip && ip.log == old(ip.log) + [DragEvent(BeginDrag, component, pos, mods, realtime, false)]
      ensures !dragging && !(captured && BeyondThreshold(clickPos, pos, dragx, dragy)) ==>
        skip && ip.log == old(ip.log)
    {
      if dragging {
        ip.Process(DragEvent(Dragging, component, pos, mods, realtime, false));
        return false;
      } else {
        if captured {
          var dx := clickPos.x - pos.x;
          var dy := clickPos.y - pos.y;
          if dx < 0 { dx := dx * -1; }
          if dy < 0 { dy := dy * -1; }
          if dx > dragx || dy > dragy {
            ip.Process(DragEvent(BeginDrag, component, pos, mods, realtime, false));
            return false;
          }
        }
      }
      skip := true;
    }

    /** Key pressed: while dragging, Escape ends the drag and the capture and sends a cancelled
        ENDDRAG; Alt, Shift or Control send DRAGGING with the current pointer position
        `mousePos` and key state `keyState`, leaving the state as it is. */
    method OnKeyDown(component: Component?, key: KeyCode, pos: Point, mods: Modifiers, mousePos: Point, keyState: Modifiers)
      returns (skip: bool)
      requires Valid()
      modifies this`captured, this`dragging, ip`log
      modifies manager`capturedComponent, manager`capturedType, manager`floatingCapture
      ensures Valid()
      ensures old(dragging) && key == EscapeKey ==>
        && !skip && !dragging && !captured && !manager.IsInputCaptured()
        && ip.log == old(ip.log) + [DragEvent(EndDrag, component, pos, mods, realtime, true)]
      ensures old(dragging) && key in {AltKey, ShiftKey, ControlKey} ==>
        && skip && dragging && captured == old(captured) && manager.capturedComponent == old(manager.capturedComponent)
        && ip.log == old(ip.log) + [DragEvent(Dragging, component, mousePos, keyState, realtime, false)]
      ensures !old(dragging) || !(key in {EscapeKey, AltKey, ShiftKey, ControlKey}) ==>
        && skip && dragging == old(dragging) && captured == old(captured)
        && manager.capturedComponent == old(manager.capturedComponent) && ip.log == old(ip.log)
    {
      if dragging {
        if key == EscapeKey {
          dragging := false;
          captured := false;
          manager.ReleaseInput();
          ip.Process(DragEvent(EndDrag, component, pos, mods, realtime, true));
          return false;
        } else if key == AltKey || key == ShiftKey || key == ControlKey {
          ip.Process(DragEvent(Dragging, component, mousePos, keyState, realtime, false));
        }
      }
      skip := true;
    }

    /** Drag initiation: unless already captured, captures input for `component`, remembers the
        click position and takes the system drag thresholds `metricX`/`metricY`, where -1 (no
        metric) means DragDistance. A null component changes nothing. */
    method OnDragInit(component: Component?, pos: Point, metricX: int, metricY: int)
      requires Valid()
      requires !captured && component != null ==> !manager.IsInputCaptured() && HasFloatingData(component)
      modifies this`captured, this`clickPos, this`dragx, this`dragy
      modifies manager`capturedComponent, manager`capturedType, manager`floatingCapture
      ensures Valid()
      ensures old(captured) || component == null ==>
        && captured == old(captured) && dragx == old(dragx) && dragy == old(dragy) && clickPos == old(clickPos)
        && manager.capturedComponent == old(manager.capturedComponent)
      ensures !old(captured) && component != null ==>
        && captured && manager.capturedComponent == component && clickPos == pos
        && dragx == (if metricX == -1 then DragDistance else metricX)
        && dragy == (if metricY == -1 then DragDistance else metricY)
    {
      if !captured {
        if component == null {
          return;
        }
        captured := true;
        manager.CaptureInput(component);
        clickPos := pos;
        dragx := metricX;
        dragy := metricY;
        if dragx == -1 {
          dragx := DragDistance;
        }
        if dragy == -1 {
          dragy := DragDistance;
        }
      }
    }

    /** Adds the nine buttons: the frame buttons at their home positions inside the interface
        rectangle, the others off screen; none is shown yet. */
    method CreateTargetButtons()
      requires Valid() && buttons == []
      modifies this`buttons
      ensures Valid() && |buttons| == 9
      ensures forall i :: 0 <= i < 9 ==> fresh(buttons[i]) && buttons[i].id == ButtonOrder[i]
      ensures forall i :: 0 <= i < 4 ==> buttons[i].pos == FrameButtonHome(manager.updateRect, ButtonWidth, ButtonOrder[i])
      ensures forall i :: 4 <= i < 9 ==> buttons[i].pos == OffScreen
      ensures forall i :: 0 <= i < 9 ==> buttons[i].component == null && !buttons[i].shown
    {
      buttons := MakeButtons(manager.updateRect);
    }

    /** The nine new buttons of CreateTargetButtons, in ButtonOrder. */
    static method MakeButtons(client: Rect) returns (bs: seq<DockButton>)
      ensures |bs| == 9
      ensures forall i, j :: 0 <= i < j < 9 ==> bs[i] != bs[j]
      ensures forall i :: 0 <= i < 9 ==> fresh(bs[i]) && bs[i].id == ButtonOrder[i]
      ensures forall i :: 0 <= i < 9 ==> !bs[i].shown && !bs[i].hover && bs[i].component == null && !bs[i].destroyed
      ensures forall i :: 0 <= i < 4 ==> bs[i].pos == FrameButtonHome(client, ButtonWidth, ButtonOrder[i])
      ensures forall i :: 4 <= i < 9 ==> bs[i].pos == OffScreen
    {
      var fl := new DockButton(FrameButtonHome(client, ButtonWidth, FrameLeft), FrameLeft);
      var ft := new DockButton(FrameButtonHome(client, ButtonWidth, FrameTop), FrameTop);
      var fr := new DockButton(FrameButtonHome(client, ButtonWidth, FrameRight), FrameRight);
      var fb := new DockButton(FrameButtonHome(client, ButtonWidth, FrameBottom), FrameBottom);
      var l := new DockButton(OffScreen, Left);
      var t := new DockButton(OffScreen, Top);
      var r := new DockButton(OffScreen, Right);
      var b := new DockButton(OffScreen, Bottom);
      var tab := new DockButton(OffScreen, Tab);
      bs := [fl, ft, fr, fb, l, t, r, b, tab];
    }

    /** Destroys every button and empties the list. */
    method DestroyTargetButtons()
      modifies this`buttons, buttons`destroyed
      ensures buttons == []
      ensures forall b :: b in old(buttons) ==> b.destroyed
    {
      var i := 0;
      while i < |buttons|
        invariant 0 <= i <= |buttons| && buttons == old(buttons)
        invariant forall j :: 0 <= j < i ==> buttons[j].destroyed
      {
        buttons[i].destroyed := true;
        i := i + 1;
      }
      buttons := [];
    }

    /** Shows or hides the four frame buttons; asking for the state they are already in does
        nothing. */
    method ShowFrameDropButtons(show: bool)
      requires Valid() && (show && !frameShown ==> |buttons| == 9)
      modifies this`frameShown, buttons`shown
      ensures Valid() && frameShown == show
      ensures forall i :: 0 <= i < |buttons| ==> buttons[i].shown == (if i < 4 then show else old(buttons[i].shown))
      ensures show == old(frameShown) ==> forall b :: b in buttons ==> b.shown == old(b.shown)
    {
      if show != frameShown {
        frameShown := show;
      } else {
        return;
      }
      assert |buttons| == 9;
      var i := 0;
      while i < 4
        invariant 0 <= i <= 4
        invariant forall j :: 0 <= j < |buttons| ==> buttons[j].shown == (if j < i then show else old(buttons[j].shown))
        modifies buttons`shown
      {
        buttons[i].shown := show;
        i := i + 1;
      }
    }

    /** Shows or hides the five component buttons; asking for the state they are already in does
        nothing. */
    method ShowComponentDropButtons(show: bool)
      requires Valid() && (show && !componentShown ==> |buttons| == 9)
      modifies this`componentShown, buttons`shown
      ensures Valid() && componentShown == show
      ensures forall i :: 0 <= i < |buttons| ==> buttons[i].shown == (if i >= 4 then show else old(buttons[i].shown))
      ensures show == old(componentShown) ==> forall b :: b in buttons ==> b.shown == old(b.shown)
    {
      if show != componentShown {
        componentShown := show;
      } else {
        return;
      }
      assert |buttons| == 9;
      var i := 4;
      while i < 9
        invariant 4 <= i <= 9
        invariant forall j :: 0 <= j < |buttons| ==> buttons[j].shown == (if 4 <= j < i then show else old(buttons[j].shown))
        modifies buttons`shown
      {
        buttons[i].shown := show;
        i := i + 1;
      }
    }

    /** The first shown button under `p`, or null. */
    method GetDockTargetButtonByPos(p: Point) returns (btn: DockButton?)
      ensures var k := FirstHit(buttons, p); btn == (if k == -1 then null else buttons[k])
    {
      var i := 0;
      while i < |buttons|
        invariant 0 <= i <= |buttons|
        invariant forall j :: 0 <= j < i ==> !(buttons[j].shown && buttons[j].Area().Contains(p))
      {
        var b := buttons[i];
        if b.shown && b.Area().Contains(p) {
          return b;
        }
        i := i + 1;
      }
      return null;
    }

    /** Start of a drag: records the drag position and the pointer's offset from the captured
        window's position `windowPos`, creates the buttons, shows the frame buttons and displays
        the help message. */
    method OnDragBegin(pos: Point, windowPos: Point)
      requires Valid() && manager.IsInputCaptured() && buttons == []
      modifies this`dragging, this`oldPos, this`offset, this`buttons, this`frameShown
      modifies manager`statusMessageDisplayed, manager`oldStatusMessage, manager`statusTexts
      ensures Valid() && dragging && oldPos == pos
      ensures offset == Point(pos.x - windowPos.x, pos.y - windowPos.y)
      ensures |buttons| == 9 && frameShown && !componentShown
      ensures forall i :: 0 <= i < 9 ==> fresh(buttons[i]) && buttons[i].id == ButtonOrder[i]
      ensures forall i :: 0 <= i < 4 ==> buttons[i].pos == FrameButtonHome(manager.updateRect, ButtonWidth, ButtonOrder[i])
      ensures manager.Status() == ShowMessage(old(manager.Status()), DragHelpText)
    {
      dragging := true;
      oldPos := pos;
      offset := Point(pos.x - windowPos.x, pos.y - windowPos.y);
      SetUpButtons();
      manager.DisplayStatusMessage(DragHelpText);
    }

    /** The button part of OnDragBegin: creates the buttons and shows the frame buttons. */
    method SetUpButtons()
      requires Valid() && buttons == []
      modifies this`buttons, this`frameShown
      ensures Valid() && |buttons| == 9 && frameShown && !componentShown
      ensures forall i :: 0 <= i < 9 ==> fresh(buttons[i]) && buttons[i].id == ButtonOrder[i]
      ensures forall i :: 0 <= i < 4 ==> buttons[i].pos == FrameButtonHome(manager.updateRect, ButtonWidth, ButtonOrder[i])
    {
      CreateTargetButtons();
      ShowFrameDropButtons(true);
    }

    /** Pointer moved during a drag. `under` is the component under the pointer. Over a button,
        that button is highlighted. Elsewhere, Shift hides all buttons; without Shift the drop
        targets are requested for the component under the pointer (a tab's panel stands for
        the tab), or for the component remembered when Alt went down while Alt stays down. The
        button under the pointer becomes the remembered one, and the previously remembered one
        loses its highlight. */
    method OnDrag(component: Component?, pos: Point, mods: Modifiers, under: Component?)
      requires Valid()
      modifies this`oldBtn, this`oldPos, this`frameShown, this`componentShown
      modifies this`lastComponent, this`lastComponentSet, buttons`hover, buttons`shown, ip`log
      ensures Valid()
      ensures var k := old(FirstHit(buttons, pos)); oldBtn == (if k == -1 then null else buttons[k])
      ensures oldBtn != null ==> oldBtn.hover
      ensures oldBtn != null ==> (ip.log == old(ip.log) && oldPos == old(oldPos)
        && frameShown == old(frameShown) && componentShown == old(componentShown))
      ensures oldBtn == null ==> oldPos == pos
      ensures oldBtn != null || mods.shift ==> (lastComponent == old(lastComponent) && lastComponentSet == old(lastComponentSet))
      ensures oldBtn == null && mods.shift ==> (!frameShown && !componentShown && ip.log == old(ip.log))
      ensures oldBtn == null && !mods.shift ==>
        (var frozen := if mods.alt && old(lastComponentSet) then old(lastComponent) else under;
         && ip.log == old(ip.log) + [ShowDropTargetsEvent(HoverTarget(frozen), pos, component)]
         && (mods.alt ==> lastComponentSet && lastComponent == frozen)
         && (!mods.alt ==> !lastComponentSet && lastComponent == null)
         && frameShown == old(frameShown) && componentShown == old(componentShown))
    {
      var btn := GetDockTargetButtonByPos(pos);
      if btn == null {
        AwayFromButtons(component, pos, mods, under);
      }
      MoveHighlight(btn);
    }

    /** OnDrag with the pointer over no button: Shift hides every button, otherwise the drop
        targets are requested; the position is remembered either way. */
    method AwayFromButtons(component: Component?, pos: Point, mods: Modifiers, under: Component?)
      requires Valid()
      modifies this`oldPos, this`frameShown, this`componentShown
      modifies this`lastComponent, this`lastComponentSet, buttons`shown, ip`log
      ensures Valid() && oldPos == pos
      ensures mods.shift ==> (!frameShown && !componentShown && ip.log == old(ip.log))
      ensures mods.shift ==> (lastComponent == old(lastComponent) && lastComponentSet == old(lastComponentSet))
      ensures !mods.shift ==>
        (var frozen := if mods.alt && old(lastComponentSet) then old(lastComponent) else under;
         && ip.log == old(ip.log) + [ShowDropTargetsEvent(HoverTarget(frozen), pos, component)]
         && (mods.alt ==> lastComponentSet && lastComponent == frozen)
         && (!mods.alt ==> !lastComponentSet && lastComponent == null)
         && frameShown == old(frameShown) && componentShown == old(componentShown))
    {
      if mods.shift {
        ShowFrameDropButtons(false);
        ShowComponentDropButtons(false);
      } else {
        RequestDropTargets(component, pos, mods, under);
      }
      oldPos := pos;
    }

    /** The Shift-less branch of OnDrag: Alt freezes the component the targets are shown for. */
    method RequestDropTargets(component: Component?, pos: Point, mods: Modifiers, under: Component?)
      requires Valid()
      modifies this`lastComponent, this`lastComponentSet, ip`log
      ensures Valid()
      ensures var frozen := if mods.alt && old(lastComponentSet) then old(lastComponent) else under;
        && ip.log == old(ip.log) + [ShowDropTargetsEvent(HoverTarget(frozen), pos, component)]
        && (mods.alt ==> lastComponentSet && lastComponent == frozen)
        && (!mods.alt ==> !lastComponentSet && lastComponent == null)
    {
      var target := under;
      if mods.alt {
        if !lastComponentSet {
          lastComponent := target;
          lastComponentSet := true;
        }
        target := lastComponent;
      } else {
        lastComponentSet := false;
        lastComponent := null;
      }
      if target != null && target.kind == PanelTab {
        target := target.parent;
      }
      ip.Process(ShowDropTargetsEvent(target, pos, component));
    }

    /** The end of OnDrag: `btn` (a button or null) is highlighted and remembered, and the button
        remembered before loses its highlight when it is another one. */
    method MoveHighlight(btn: DockButton?)
      requires Valid() && (btn != null ==> btn in buttons)
      modifies this`oldBtn, buttons`hover
      ensures Valid() && oldBtn == btn
      ensures btn != null ==> btn.hover
      ensures old(oldBtn) != null && old(oldBtn) != btn ==> !old(oldBtn).hover
    {
      if btn != null {
        var _ := btn.SetHover(true);
      }
      if oldBtn != null && oldBtn != btn {
        var _ := oldBtn.SetHover(false);
      }
      oldBtn := btn;
    }

    /** Places the drop targets for the component under the pointer (`hovered`, null for the
        content area): shows the frame buttons, and either hides the component buttons or centres
        the cross on the rectangle the plugin reports for the target (`reported`), nudges the
        frame buttons clear of it, shows the component buttons and points them at `hovered`. */
    method OnShowDropTargets(hovered: Component?, pos: Point, dragged: Component, client: Rect, reported: Rect,
                             ghost tree: set<Component>)
      requires Valid() && |buttons| == 9
      requires TreeOK(tree) && dragged in tree
      requires hovered != null ==> HasFloatingData(hovered)
      modifies this`frameShown, this`componentShown, buttons`shown, buttons`pos, buttons`component, ip`log
      ensures Valid() && frameShown
      ensures old(Suppressed(hovered, pos, dragged, client, tree)) ==>
        (&& !componentShown && ip.log == old(ip.log)
         && PlacedAt(old(Positions()))
         && (forall i :: 0 <= i < 9 ==> buttons[i].component == old(buttons[i].component)))
      ensures !old(Suppressed(hovered, pos, dragged, client, tree)) ==>
        (&& componentShown && ip.log == old(ip.log) + [RectQueryEvent(hovered)]
         && PlacedAt(TargetPositions(Centre(reported), manager.updateRect, ButtonWidth))
         && (forall i :: 4 <= i < 9 ==> buttons[i].component == hovered)
         && (forall i :: 0 <= i < 4 ==> buttons[i].component == old(buttons[i].component)))
    {
      var suppress := HidesComponentButtons(hovered, pos, dragged, client, tree);
      ShowFrameDropButtons(true);
      if suppress {
        ShowComponentDropButtons(false);
        return;
      }
      AimCross(hovered, reported);
    }

    /** The unsuppressed end of OnShowDropTargets: asks for `hovered`'s rectangle (`reported`) and
        shows the cross centred on it, aimed at `hovered`. */
    method AimCross(hovered: Component?, reported: Rect)
      requires Valid() && |buttons| == 9
      modifies this`componentShown, buttons`shown, buttons`pos, buttons`component, ip`log
      ensures Valid() && componentShown && frameShown == old(frameShown)
      ensures ip.log == old(ip.log) + [RectQueryEvent(hovered)]
      ensures PlacedAt(TargetPositions(Centre(reported), manager.updateRect, ButtonWidth))
      ensures forall i :: 4 <= i < 9 ==> buttons[i].component == hovered
      ensures forall i :: 0 <= i < 4 ==> buttons[i].component == old(buttons[i].component)
    {
      ip.Process(RectQueryEvent(hovered));
      ShowCross(TargetPositions(Centre(reported), manager.updateRect, ButtonWidth), hovered);
    }

    /** Shows the component buttons, moves all nine to `ps` and points the component buttons at
        `c`. */
    method ShowCross(ps: seq<Point>, c: Component?)
      requires Valid() && |buttons| == 9 && |ps| == 9
      modifies this`componentShown, buttons`shown, buttons`pos, buttons`component
      ensures Valid() && componentShown && frameShown == old(frameShown)
      ensures PlacedAt(ps) && forall i :: 4 <= i < 9 ==> buttons[i].component == c
      ensures forall i :: 0 <= i < 4 ==> buttons[i].component == old(buttons[i].component)
    {
      ShowComponentDropButtons(true);
      MoveButtons(ps);
      SetButtonComponents(c);
    }

    /** The positions of the buttons, in order. */
    function Positions(): (ps: seq<Point>)
      reads this, buttons
      ensures |ps| == |buttons| && forall i :: 0 <= i < |buttons| ==> ps[i] == buttons[i].pos
    {
      seq(|buttons|, i requires 0 <= i < |buttons| reads this, buttons => buttons[i].pos)
    }

    /** The buttons stand at `ps`, in order. */
    ghost predicate PlacedAt(ps: seq<Point>)
      reads this, buttons`pos
    {
      |buttons| == |ps| && forall i :: 0 <= i < |ps| ==> buttons[i].pos == ps[i]
    }

    /** Moves the nine buttons to `ps`, tab button first, then the frame buttons. */
    method MoveButtons(ps: seq<Point>)
      requires |ps| == 9 && |buttons| == 9
      requires forall i, j :: 0 <= i < j < 9 ==> buttons[i] != buttons[j]
      modifies buttons`pos
      ensures PlacedAt(ps)
    {
      buttons[8].pos := ps[8];
      buttons[7].pos := ps[7];
      buttons[6].pos := ps[6];
      buttons[5].pos := ps[5];
      buttons[4].pos := ps[4];
      buttons[0].pos := ps[0];
      buttons[1].pos := ps[1];
      buttons[2].pos := ps[2];
      buttons[3].pos := ps[3];
    }

    /** Points every component button (from the fifth on) at `c`; the frame buttons keep their
        targets. */
    method SetButtonComponents(c: Component?)
      requires forall i, j :: 0 <= i < j < |buttons| ==> buttons[i] != buttons[j]
      modifies buttons`component
      ensures forall i :: 4 <= i < |buttons| ==> buttons[i].component == c
      ensures forall i :: 0 <= i < 4 && i < |buttons| ==> buttons[i].component == old(buttons[i].component)
    {
      var i := 4;
      while i < |buttons|
        invariant 4 <= i && (i <= |buttons| || |buttons| < 4)
        invariant forall j :: 4 <= j < i && j < |buttons| ==> buttons[j].component == c
        invariant forall j :: 0 <= j < 4 && j < |buttons| ==> buttons[j].component == old(buttons[j].component)
        modifies buttons`component
      {
        buttons[i].component := c;
        i := i + 1;
      }
    }

    /** Position of `c` among its parent's children, counted as the source's iterator loop does. */
    static method IndexInParent(c: Component) returns (index: int)
      requires c.parent != null
      ensures index == IndexOf(c.parent.children, c)
    {
      var children := c.parent.children;
      index := 0;
      while index < |children| && children[index] != c
        invariant 0 <= index <= |children|
        invariant IndexOf(children, c) >= index
        invariant forall j :: 0 <= j < index ==> children[j] != c
      {
        index := index + 1;
      }
    }

    /** The nodes of `c` and its ancestors, as the drop logic reads them. */
    static method Chain(c: Component, tops: seq<Component>, ghost tree: set<Component>)
      returns (cs: seq<Component>, nodes: seq<Node>)
      requires ParentsIn(tree) && c in tree
      ensures cs == ChainOf(c, tree) && nodes == TargetNodes(c, tops, tree)
    {
      cs := [c];
      if c.parent != null {
        cs := cs + [c.parent];
        if c.parent.parent != null {
          cs := cs + [c.parent.parent];
        }
      }
      nodes := [];
      var j := 0;
      while j < |cs|
        invariant 0 <= j <= |cs| && |nodes| == j
        invariant forall m :: 0 <= m < j ==> nodes[m] == NodeOf(cs[m], tops)
      {
        var c' := cs[j];
        var index := 0;
        if c'.parent != null {
          index := IndexInParent(c');
        }
        nodes := nodes + [Node(c'.kind, c'.alignment, c'.orientation, c'.docked, |c'.children|, c' in tops, index)];
        j := j + 1;
      }
    }

    /** Sends the events of a docking plan and lays out the container it docks into. */
    method Carry(plan: Plan, component: Component, cs: seq<Component>) returns (made: Component?)
      requires plan.BesideTopContainer? || plan.Dock? || plan.DockWhere? ==> plan.level < |cs|
      modifies ip`log, component`alignment, component`orientation
      ensures (plan.ToFrame? || plan.BesideTopContainer?) && plan.newContainer <==> made != null
      ensures made != null ==> fresh(made) && made.kind == Container && made.parent == null && made.children == []
      ensures ip.log == old(ip.log) + PlanEvents(plan, component, cs, made)
      ensures (plan.ToFrame? || plan.BesideTopContainer?) ==>
        var container := if plan.newContainer then made else component;
        container.alignment == plan.alignment && container.orientation == plan.orientation
      ensures !((plan.ToFrame? || plan.BesideTopContainer?) && !plan.newContainer) ==>
        component.alignment == old(component.alignment) && component.orientation == old(component.orientation)
    {
      made := null;
      match plan
      case ToFrame(alignment, orientation, index, nc) =>
        var container := component;
        if nc {
          ip.Process(NewContainerEvent);
          made := new Component(ip, Container);
          container := made;
        }
        container.orientation := orientation;
        container.alignment := alignment;
        ip.Process(AddTopContainerEvent(container, index));
        if nc {
          ip.Process(DockEvent(component, container, 0));
        }
      case BesideTopContainer(k, alignment, orientation, before, nc) =>
        var container := component;
        if nc {
          ip.Process(NewContainerEvent);
          made := new Component(ip, Container);
          container := made;
        }
        container.alignment := alignment;
        container.orientation := orientation;
        if nc {
          ip.Process(DockEvent(component, container, 0));
        }
        ip.Process(AddTopContainerBesideEvent(container, cs[k], before));
      case Dock(k, index) =>
        ip.Process(DockEvent(component, cs[k], index));
      case DockWhere(k, index, where) =>
        ip.Process(DockExEvent(component, cs[k], index, where));
      case NoDock =>
    }

    /** End of a drag: hides and destroys the buttons, forgets the hovered button and restores
        the status text. Unless cancelled, a release over a button (other than the tab button of
        no component) is a drop, carried out by Drop. */
    method OnDragEnd(component: Component, canceled: bool, tops: seq<Component>, client: Rect, ghost tree: set<Component>)
      returns (made: Component?)
      requires Valid() && ParentsIn(tree) && component in tree
      requires oldBtn != null && oldBtn.component != null ==> oldBtn.component in tree
      requires !canceled ==> HasFloatingData(component)
      requires 0 <= manager.activeInterface < |manager.plugins| && manager.plugins[manager.activeInterface] == ip
      modifies this`frameShown, this`componentShown, this`buttons, this`oldBtn, buttons`shown, buttons`destroyed
      modifies ip`log, component`alignment, component`orientation
      modifies manager`useUpdateRect, manager`updateRect
      modifies manager`statusMessageDisplayed, manager`oldStatusMessage, manager`statusTexts
      ensures Valid() && buttons == [] && oldBtn == null
      ensures forall b :: b in old(buttons) ==> b.destroyed && !b.shown
      ensures manager.Status() == RestoreMessage(old(manager.Status()))
      ensures canceled || old(oldBtn) == null || !Drops(old(oldBtn).id, old(oldBtn.component) != null) ==>
        (made == null && ip.log == old(ip.log) && manager.RectNow() == old(manager.RectNow()))
      ensures !canceled && old(oldBtn) != null && Drops(old(oldBtn).id, old(oldBtn.component) != null) ==>
        (var target := old(oldBtn.component);
         var plan := old(DropPlan(oldBtn.id, TargetNodes(target, tops, tree), component.kind != Container));
         var cs := if target == null then [] else old(ChainOf(target, tree));
         && (plan.BesideTopContainer? || plan.Dock? || plan.DockWhere? ==> plan.level < |cs|)
         && ((plan.ToFrame? || plan.BesideTopContainer?) && plan.newContainer <==> made != null)
         && manager.RectNow() == ChooseRect(old(manager.RectNow()), DefaultRect, client)
         && ip.log == old(ip.log) + old(DetachEvents(component)) + PlanEvents(plan, component, cs, made)
                      + [UpdateEvent(manager.updateRect, false)])
    {
      made := null;
      // The handler hides the buttons before the drop; the drop neither reads nor writes what
      // hiding changes (the shown flags), so hiding them afterwards, together with destroying
      // them, ends in the same state.
      if !canceled && oldBtn != null && Drops(oldBtn.id, oldBtn.component != null) {
        made := Drop(oldBtn, component, tops, client, tree);
      }
      TearDown();
      manager.ResetStatusMessage();
    }

    /** The button part of OnDragEnd: hides and destroys every button and forgets the one that
        was under the pointer. */
    method TearDown()
      requires Valid()
      modifies this`frameShown, this`componentShown, this`buttons, this`oldBtn, buttons`shown, buttons`destroyed
      ensures Valid() && buttons == [] && oldBtn == null
      ensures forall b :: b in old(buttons) ==> b.destroyed && !b.shown
    {
      ShowComponentDropButtons(false);
      ShowFrameDropButtons(false);
      DestroyTargetButtons();
      oldBtn := null;
    }

    /** A drop of `component` on button `btn`: detaches the component from where it is, sends the
        docking requests DropPlan gives for the button and the chain of the button's component,
        and updates the interface with the default rectangle. `tops` is the interface's top-level
        container list and `client` the parent's client rectangle; the container created for the
        drop, if any, is returned. */
    method Drop(btn: DockButton, component: Component, tops: seq<Component>, client: Rect, ghost tree: set<Component>)
      returns (made: Component?)
      requires manager.Valid() && ParentsIn(tree) && component in tree
      requires btn.component != null ==> btn.component in tree
      requires Drops(btn.id, btn.component != null) && HasFloatingData(component)
      requires 0 <= manager.activeInterface < |manager.plugins| && manager.plugins[manager.activeInterface] == ip
      modifies ip`log, component`alignment, component`orientation, manager`useUpdateRect, manager`updateRect
      ensures manager.Valid()
      ensures var target := btn.component;
        var plan := old(DropPlan(btn.id, TargetNodes(target, tops, tree), component.kind != Container));
        var cs := if target == null then [] else old(ChainOf(target, tree));
        && (plan.BesideTopContainer? || plan.Dock? || plan.DockWhere? ==> plan.level < |cs|)
        && ((plan.ToFrame? || plan.BesideTopContainer?) && plan.newContainer <==> made != null)
        && manager.RectNow() == ChooseRect(old(manager.RectNow()), DefaultRect, client)
        && ip.log == old(ip.log) + old(DetachEvents(component)) + PlanEvents(plan, component, cs, made)
                     + [UpdateEvent(manager.updateRect, false)]
    {
      Detach(component);
      var cs: seq<Component> := [];
      var nodes: seq<Node> := [];
      if btn.component != null {
        cs, nodes := Chain(btn.component, tops, tree);
      }
      var plan := DropPlan(btn.id, nodes, component.kind != Container);
      made := Carry(plan, component, cs);
      manager.Update(DefaultRect, false, client);
    }

    /** The first step of a drop: takes the dragged component out of its parent or out of the
        top-level containers. */
    method Detach(component: Component)
      requires HasFloatingData(component)
      modifies ip`log
      ensures ip.log == old(ip.log) + DetachEvents(component)
    {
      var fd := component.data[FloatingDataKey].value;
      if component.parent != null {
        ip.Process(UndockEvent(component, None));
      } else if !fd.floating {
        ip.Process(RemoveTopContainerEvent(component));
      }
    }

    /** The docking request handler: a request naming a side (`extended`) is adjusted as
        AdjustDock says. PassOn changes the request's index; Turn flips the destination's
        alignment; Split wraps the child at `index` in a new container and re-docks into it,
        and the request is then consumed. Every other request is passed on unchanged. */
    method OnDock(extended: bool, component: Component, dest: Component, index: int, where: DockId)
      returns (skip: bool, newIndex: int, made: Component?)
      requires extended && AdjustDock(where, index, dest.alignment, |dest.children|).Split? ==> 0 <= index < |dest.children|
      modifies dest`alignment, ip`log
      ensures !extended ==> (skip && newIndex == index && made == null
        && dest.alignment == old(dest.alignment) && ip.log == old(ip.log))
      ensures extended ==>
        (var r := old(AdjustDock(where, index, dest.alignment, |dest.children|));
        && (r.PassOn? ==>
              (skip && newIndex == r.index && made == null
               && dest.alignment == old(dest.alignment) && ip.log == old(ip.log)))
        && (r.Turn? ==>
              (skip && newIndex == index && made == null
               && dest.alignment == r.alignment && ip.log == old(ip.log)))
        && (r.Split? ==>
              (!skip && newIndex == index && made != null && fresh(made)
               && made.kind == Container && made.alignment == r.alignment
               && dest.alignment == old(dest.alignment)
               && ip.log == old(ip.log) + [NewContainerEvent, DockEvent(made, dest, index),
                    UndockEvent(old(dest.children[index]), Some(false)), DockEvent(old(dest.children[index]), made, DefaultIndex),
                    DockExEvent(component, made, 0, where)])))
    {
      newIndex, made := index, null;
      if extended {
        if (dest.alignment == Horizontal && where == Right) || (dest.alignment == Vertical && where == Bottom) {
          newIndex := index + 1;
        } else if (dest.alignment == Horizontal && (where == Top || where == Bottom))
               || (dest.alignment == Vertical && (where == Left || where == Right)) {
          if |dest.children| == 1 {
            if dest.alignment == Horizontal {
              dest.alignment := Vertical;
            } else if dest.alignment == Vertical {
              dest.alignment := Horizontal;
            }
            return true, newIndex, made;
          } else {
            ip.Process(NewContainerEvent);
            made := new Component(ip, Container);
            made.alignment := if dest.alignment == Horizontal then Vertical else Horizontal;
            var child := dest.children[index];
            ip.Process(DockEvent(made, dest, index));
            ip.Process(UndockEvent(child, Some(false)));
            ip.Process(DockEvent(child, made, DefaultIndex));
            ip.Process(DockExEvent(component, made, 0, where));
          }
          return false, newIndex, made;
        }
      }
      skip := true;
    }
  }
}
