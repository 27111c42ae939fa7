/** The core of the interface manager (src/ifm/manager.cpp): components and their tree, the
    interface plugins that receive events, and the manager's input capture, plugin list,
    status-bar message and update rectangle. Sending an event to a plugin is modelled as
    appending it to that plugin's log; what the plugin then does lives outside this model. */
module Manager {
  import opened Rects
  import opened IfmDefs
  import opened DockPlacement

  /** Alt, Shift and Control key state carried by mouse and key events. */
  datatype Modifiers = Modifiers(alt: bool, shift: bool, ctrl: bool)

  datatype DragKind = BeginDrag | Dragging | EndDrag

  /** The events the modelled code sends to an interface plugin. */
  datatype IfmEvent =
    | ShowComponentEvent(component: Component, show: bool, update: bool)
    | VisibilityChangedEvent(component: Component, visible: bool)
    | UpdateEvent(rect: Rect, floating: bool)
    | DragEvent(drag: DragKind, target: Component?, pos: Point, mods: Modifiers, realtime: bool, canceled: bool)
    | ShowDropTargetsEvent(hovered: Component?, pos: Point, dragged: Component?)
    /** GETRECT for a component, or GETCONTENTRECT when `queried` is null. */
    | RectQueryEvent(queried: Component?)
    /** `arg` is the second constructor argument, None when the default is used. */
    | UndockEvent(component: Component, arg: Option<bool>)
    | RemoveTopContainerEvent(component: Component)
    | NewContainerEvent
    | AddTopContainerEvent(container: Component, index: int)
    | AddTopContainerBesideEvent(container: Component, destination: Component, before: bool)
    | DockEvent(component: Component, destination: Component, index: int)
    | DockExEvent(component: Component, destination: Component, index: int, where: DockId)

  /** An interface plugin as far as the manager sees it: whether its Initialize succeeds, whether
      it is enabled, whether it was shut down, and the events it was sent. */
  class InterfacePlugin {
    const initializes: bool
    var enabled: bool
    var shutDown: bool
    var log: seq<IfmEvent>

    constructor (initializes: bool)
      ensures this.initializes == initializes && !enabled && !shutDown && log == []
    {
      this.initializes := initializes;
      enabled, shutDown, log := false, false, [];
    }

    /** ProcessPluginEvent. */
    method Process(e: IfmEvent)
      modifies this`log
      ensures log == old(log) + [e]
    {
      log := log + [e];
    }
  }

  /** The window that receives captured mouse input: the manager's parent window or the window
      of the floating window with the given number. */
  datatype Window = ParentWindow | FloatingWindow(id: nat)

  /** IFM_FLOATING_DATA_KEY: the key handed out for floating data, whose value is fixed at start-up. */
  const FloatingDataKey: int

  /** Extension data attached to a component. Floating data says whether the component floats,
      in which floating window (None for no window), and its last floating rectangle. */
  datatype ExtensionData =
    | FloatingData(floating: bool, window: Option<nat>, rect: Rect)
    | OtherData(dataKey: int)
  {
    /** GetDataKey. */
    function Key(): int {
      match this
      case FloatingData(_, _, _) => FloatingDataKey
      case OtherData(k) => k
    }
  }

  /** A component. `data` maps a data key to the stored pointer, with None for a null pointer;
      `orientation` is the orientation held in a container's container data. `rank` is a
      ghost height: children have a smaller rank than their parent, so the tree is acyclic. */
  class Component {
    const ip: InterfacePlugin
    const kind: ComponentType
    var hidden: bool
    var visible: bool
    var docked: bool
    var alignment: Alignment
    var orientation: Orientation
    var parent: Component?
    var children: seq<Component>
    var data: map<int, Option<ExtensionData>>
    ghost var rank: nat

    /** A new component is shown, visible, undocked, without alignment, parent or children,
        and carries floating data saying it does not float. */
    constructor (ip: InterfacePlugin, kind: ComponentType)
      ensures this.ip == ip && this.kind == kind
      ensures !hidden && visible && !docked && alignment == AlignNone && orientation == OrientOther
      ensures parent == null && children == [] && rank == 0
      ensures data == map[FloatingDataKey := Some(FloatingData(false, None, DefaultRect))]
    {
      this.ip := ip;
      this.kind := kind;
      hidden, visible, docked := false, true, false;
      alignment, orientation := AlignNone, OrientOther;
      parent, children := null, [];
      data := map[FloatingDataKey := Some(FloatingData(false, None, DefaultRect))];
      rank := 0;
    }

    /** Shown is the opposite of the hidden flag Show sets. */
    predicate IsShown()
      reads this
      ensures IsShown() <==> !hidden
    {
      !hidden
    }

    /** Visible means shown and with the visibility flag set; a hidden component is never visible. */
    predicate IsVisible()
      reads this
      ensures IsVisible() ==> IsShown()
      ensures IsVisible() <==> IsShown() && visible
    {
      !hidden && visible
    }

    /** Sends SHOWCOMPONENT and records whether the component is shown; it is then visible
        exactly when it is shown and its visibility flag is set. */
    method Show(s: bool, update: bool)
      modifies this`hidden, ip`log
      ensures IsShown() == s
      ensures IsVisible() <==> s && visible
      ensures ip.log == old(ip.log) + [ShowComponentEvent(this, s, update)]
    {
      ip.Process(ShowComponentEvent(this, s, update));
      hidden := !s;
    }

    /** Records a change of visibility, sending COMPONENTVISIBILITYCHANGED only when the
        visibility actually changes. */
    method VisibilityChanged(vis: bool)
      modifies this`visible, ip`log
      ensures visible == vis
      ensures old(visible) == vis ==> ip.log == old(ip.log)
      ensures old(visible) != vis ==> ip.log == old(ip.log) + [VisibilityChangedEvent(this, vis)]
    {
      if vis == visible {
        return;
      }
      ip.Process(VisibilityChangedEvent(this, vis));
      visible := vis;
    }

    /** Stores `d` under its own key, replacing what was there. */
    method AddExtensionData(d: ExtensionData)
      modifies this`data
      ensures data == old(data)[d.Key() := Some(d)]
    {
      data := data[d.Key() := Some(d)];
    }

    /** Looks `key` up; like the operator[] of the wxWidgets hash map that holds the data, a
        missing key is inserted with a null pointer, which is returned. */
    method GetExtensionData(key: int) returns (d: Option<ExtensionData>)
      modifies this`data
      ensures key in old(data) ==> d == old(data)[key] && data == old(data)
      ensures key !in old(data) ==> d.None? && data == old(data)[key := None]
    {
      if key !in data {
        data := data[key := None];
      }
      d := data[key];
    }

    /** Returns what is stored under `key` (null when nothing is) and removes the key. */
    method RemoveExtensionData(key: int) returns (d: Option<ExtensionData>)
      modifies this`data
      ensures d == (if key in old(data) then old(data)[key] else None)
      ensures data == old(data) - {key}
      ensures key !in data
    {
      d := if key in data then data[key] else None;
      data := data - {key};
    }

    /** The first index at or after `start` whose component is visible, or -1. */
    static method GetNextVisibleComponent(components: seq<Component>, start: int) returns (r: int)
      requires start >= 0
      ensures r == -1 || start <= r < |components|
      ensures r != -1 ==> components[r].IsVisible()
      ensures forall i :: start <= i < |components| && (r == -1 || i < r) ==> !components[i].IsVisible()
    {
      var i := start;
      while i < |components|
        invariant start <= i
        invariant forall j :: start <= j < i && j < |components| ==> !components[j].IsVisible()
      {
        if components[i].IsVisible() {
          return i;
        }
        i := i + 1;
      }
      return -1;
    }

    /** Whether `child` is a proper descendant of `parent`: a child of it, or a descendant of
        one of its children. */
    static method IsChildOf(parent: Component, child: Component?, ghost tree: set<Component>) returns (r: bool)
      requires TreeOK(tree) && parent in tree
      ensures r <==> Below(tree, parent, child)
      decreases parent.rank
    {
      var children := parent.children;
      var i := 0;
      while i < |children|
        invariant 0 <= i <= |children|
        invariant forall j :: 0 <= j < i ==> children[j] != child && !Below(tree, children[j], child)
      {
        var component := children[i];
        if component == child {
          return true;
        }
        var deeper := IsChildOf(component, child, tree);
        if deeper {
          return true;
        }
        i := i + 1;
      }
      return false;
    }
  }

  /** `tree` is closed under children and every child has a smaller rank than its parent. */
  ghost predicate TreeOK(tree: set<Component>)
    reads tree
  {
    forall c, i :: c in tree && 0 <= i < |c.children| ==> c.children[i] in tree && c.children[i].rank < c.rank
  }

  /** `c` is reached from `p` by following one or more child links. */
  ghost predicate Below(tree: set<Component>, p: Component, c: Component?)
    requires TreeOK(tree) && p in tree
    reads tree
    decreases p.rank
  {
    exists i :: 0 <= i < |p.children| && (p.children[i] == c || Below(tree, p.children[i], c))
  }

  /** Descendants lie in the tree below their ancestor's rank. */
  lemma {:induction false} BelowLowersRank(tree: set<Component>, p: Component, c: Component?)
    requires TreeOK(tree) && p in tree && Below(tree, p, c)
    ensures c != null && c in tree && c.rank < p.rank
    decreases p.rank
  {
    var i :| 0 <= i < |p.children| && (p.children[i] == c || Below(tree, p.children[i], c));
    if p.children[i] != c {
      BelowLowersRank(tree, p.children[i], c);
    }
  }

  /** So a component is never its own descendant. */
  lemma BelowIsProper(tree: set<Component>, p: Component)
    requires TreeOK(tree) && p in tree
    ensures !Below(tree, p, p)
  {
    if Below(tree, p, p) {
      BelowLowersRank(tree, p, p);
    }
  }

  /** A descendant of a descendant is a descendant. */
  lemma {:induction false} BelowIsTransitive(tree: set<Component>, a: Component, b: Component, c: Component?)
    requires TreeOK(tree) && a in tree && b in tree
    requires Below(tree, a, b) && Below(tree, b, c)
    ensures Below(tree, a, c)
    decreases a.rank
  {
    var i :| 0 <= i < |a.children| && (a.children[i] == b || Below(tree, a.children[i], b));
    if a.children[i] != b {
      BelowIsTransitive(tree, a.children[i], b, c);
    }
  }

  /** The status pane's state: the pane number, whether a message is displayed over a saved
      text, the saved text, and the texts of the status bar's panes. */
  datatype StatusLine = StatusLine(pane: int, displayed: bool, saved: string, texts: map<int, string>)

  /** The text a pane shows; a pane never written shows nothing. */
  function TextOf(texts: map<int, string>, pane: int): string {
    if pane in texts then texts[pane] else ""
  }

  /** DisplayStatusMessage on the status state: a disabled pane is left alone; otherwise the pane
      shows the message, only that pane changes, and the text it showed is saved unless a
      message was already displayed over a saved text. */
  function ShowMessage(s: StatusLine, message: string): (r: StatusLine)
    ensures s.pane == DisableStatusMessages ==> r == s
    ensures s.pane != DisableStatusMessages ==>
      && r.pane == s.pane && r.displayed
      && TextOf(r.texts, s.pane) == message
      && (forall q :: q != s.pane ==> TextOf(r.texts, q) == TextOf(s.texts, q))
      && r.saved == (if s.displayed then s.saved else TextOf(s.texts, s.pane))
  {
    if s.pane == DisableStatusMessages then s
    else
      var s1 := if !s.displayed then s.(displayed := true, saved := TextOf(s.texts, s.pane)) else s;
      s1.(texts := s1.texts[s.pane := message])
  }

  /** ResetStatusMessage on the status state: with a message displayed on an enabled pane, the
      pane shows the saved text again and only that pane changes; otherwise nothing changes. */
  function RestoreMessage(s: StatusLine): (r: StatusLine)
    ensures s.pane == DisableStatusMessages || !s.displayed ==> r == s
    ensures s.pane != DisableStatusMessages && s.displayed ==>
      && r.pane == s.pane && !r.displayed
      && TextOf(r.texts, s.pane) == s.saved
      && (forall q :: q != s.pane ==> TextOf(r.texts, q) == TextOf(s.texts, q))
  {
    if s.pane == DisableStatusMessages || !s.displayed then s
    else s.(displayed := false, texts := s.texts[s.pane := s.saved], saved := "")
  }

  /** Displays the messages one after another. */
  function ShowAll(s: StatusLine, messages: seq<string>): StatusLine
    decreases |messages|
  {
    if messages == [] then s else ShowAll(ShowMessage(s, messages[0]), messages[1..])
  }

  /** After one or more messages the pane shows the last one, and the text saved is the one the
      pane showed before the first message of the run: later messages never overwrite it. */
  lemma {:induction false} ShowAllSavesFirstText(s: StatusLine, messages: seq<string>)
    requires s.pane != DisableStatusMessages && messages != []
    ensures var r := ShowAll(s, messages);
      && r.pane == s.pane && r.displayed
      && r.saved == (if s.displayed then s.saved else TextOf(s.texts, s.pane))
      && r.texts == s.texts[s.pane := messages[|messages| - 1]]
    decreases |messages|
  {
    var s1 := ShowMessage(s, messages[0]);
    if |messages| > 1 {
      ShowAllSavesFirstText(s1, messages[1..]);
      assert messages[1..][|messages[1..]| - 1] == messages[|messages| - 1];
    }
  }

  /** Displaying any messages and then resetting once puts back every pane's text from before
      the first message and clears the displayed flag. */
  lemma MessagesThenResetRestore(s: StatusLine, messages: seq<string>)
    requires !s.displayed
    ensures var r := RestoreMessage(ShowAll(s, messages));
      !r.displayed && r.pane == s.pane && forall q :: TextOf(r.texts, q) == TextOf(s.texts, q)
  {
    if s.pane != DisableStatusMessages && messages != [] {
      ShowAllSavesFirstText(s, messages);
    } else if messages != [] {
      DisabledPaneShowsNothing(s, messages);
    }
  }

  /** With status messages disabled, displaying messages changes nothing, and neither does a
      reset afterwards. */
  lemma {:induction false} DisabledPaneShowsNothing(s: StatusLine, messages: seq<string>)
    requires s.pane == DisableStatusMessages
    ensures ShowAll(s, messages) == s
    ensures RestoreMessage(ShowAll(s, messages)) == s
    decreases |messages|
  {
    if messages != [] {
      DisabledPaneShowsNothing(s, messages[1..]);
    }
  }

  /** A second reset in a row changes nothing. */
  lemma ResetIsIdempotent(s: StatusLine)
    ensures RestoreMessage(RestoreMessage(s)) == RestoreMessage(s)
  {
  }

  /** Whether the manager keeps using a stored update rectangle, and that rectangle. */
  datatype RectState = RectState(sticky: bool, rect: Rect)

  /** The rectangle Update lays the interface out in, with the manager's new rectangle state:
      a stored rectangle wins; otherwise the default rectangle means the parent's client
      rectangle, and an explicit rectangle is used and stored. */
  function ChooseRect(s: RectState, requested: Rect, client: Rect): (r: RectState)
    ensures r.sticky <==> s.sticky || requested != DefaultRect
    ensures s.sticky ==> r == s
  {
    if s.sticky then s
    else if requested == DefaultRect then RectState(false, client)
    else RectState(true, requested)
  }

  /** One call of Update: the rectangle asked for and the parent's client rectangle then. */
  datatype UpdateRequest = UpdateRequest(requested: Rect, client: Rect)

  function ChooseAll(s: RectState, reqs: seq<UpdateRequest>): RectState
    decreases |reqs|
  {
    if reqs == [] then s else ChooseAll(ChooseRect(s, reqs[0].requested, reqs[0].client), reqs[1..])
  }

  /** Position of the first request with an explicit rectangle, or -1. */
  function FirstExplicit(reqs: seq<UpdateRequest>): (i: int)
    ensures -1 <= i < |reqs|
    ensures i >= 0 ==> reqs[i].requested != DefaultRect
    ensures forall j :: 0 <= j < |reqs| && (i == -1 || j < i) ==> reqs[j].requested == DefaultRect
    decreases |reqs|
  {
    if reqs == [] then -1
    else if reqs[0].requested != DefaultRect then 0
    else
      var k := FirstExplicit(reqs[1..]);
      if k == -1 then -1 else k + 1
  }

  /** Starting without a stored rectangle, a run of Update calls ends on the first explicit
      rectangle asked for, stored for good; when every call asks for the default, it ends on
      the last client rectangle, still not stored. */
  lemma {:induction false} UpdateRectSettles(s: RectState, reqs: seq<UpdateRequest>)
    requires !s.sticky && reqs != []
    ensures var r := ChooseAll(s, reqs);
      var k := FirstExplicit(reqs);
      && (k >= 0 ==> r == RectState(true, reqs[k].requested))
      && (k == -1 ==> r == RectState(false, reqs[|reqs| - 1].client))
    decreases |reqs|
  {
    var s1 := ChooseRect(s, reqs[0].requested, reqs[0].client);
    if reqs[0].requested != DefaultRect {
      StoredRectSticks(s1, reqs[1..]);
    } else if |reqs| > 1 {
      UpdateRectSettles(s1, reqs[1..]);
    }
  }

  /** A stored rectangle is used by every later Update, whatever it asks for. */
  lemma {:induction false} StoredRectSticks(s: RectState, reqs: seq<UpdateRequest>)
    requires s.sticky
    ensures ChooseAll(s, reqs) == s
    decreases |reqs|
  {
    if reqs != [] {
      StoredRectSticks(s, reqs[1..]);
    }
  }

  /** The floating data of `c` is present, as every constructed component's is. */
  predicate HasFloatingData(c: Component)
    reads c
  {
    FloatingDataKey in c.data && c.data[FloatingDataKey].Some? && c.data[FloatingDataKey].value.FloatingData?
  }

  /** The manager's own state. `statusTexts` stands for the status bar's pane texts. */
  class InterfaceManager {
    var plugins: seq<InterfacePlugin>
    var activeInterface: int
    var capturedComponent: Component?
    var capturedType: ComponentType
    var floatingCapture: Option<nat>
    var useUpdateRect: bool
    var updateRect: Rect
    var statusbarPane: int
    var statusMessageDisplayed: bool
    var oldStatusMessage: string
    var statusTexts: map<int, string>

    /** Capture state is consistent (nothing captured means no floating capture and an undefined
        type; a capture records the component's type) and no plugin is listed twice. */
    predicate Valid()
      reads this`capturedComponent, this`capturedType, this`floatingCapture, this`plugins
    {
      && (capturedComponent == null ==> floatingCapture.None? && capturedType == Undefined)
      && (capturedComponent != null ==> capturedType == capturedComponent.kind)
      && (forall i, j :: 0 <= i < j < |plugins| ==> plugins[i] != plugins[j])
    }

    /** A new manager captures nothing, has no plugins, no stored rectangle and status messages
        disabled. */
    constructor ()
      ensures Valid() && plugins == [] && !IsInputCaptured() && !useUpdateRect
      ensures statusbarPane == DisableStatusMessages && !statusMessageDisplayed
      ensures updateRect == Rect(0, 0, 0, 0)
    {
      plugins, activeInterface := [], 0;
      capturedComponent, capturedType, floatingCapture := null, Undefined, None;
      useUpdateRect, updateRect := false, Rect(0, 0, 0, 0);
      statusbarPane, statusMessageDisplayed, oldStatusMessage, statusTexts := DisableStatusMessages, false, "", map[];
    }

    /** Input is captured exactly when a component holds the capture. */
    predicate IsInputCaptured()
      reads this`capturedComponent
      ensures IsInputCaptured() <==> capturedComponent != null
    {
      capturedComponent != null
    }

    /** The window holding the mouse capture: none when nothing is captured, else the floating
        window of the capture or the parent window. */
    function CapturedWindow(): (w: Option<Window>)
      reads this
      ensures w.Some? <==> IsInputCaptured()
      ensures w.Some? && floatingCapture.None? ==> w.value == ParentWindow
    {
      if capturedComponent == null then None
      else if floatingCapture.Some? then Some(FloatingWindow(floatingCapture.value))
      else Some(ParentWindow)
    }

    /** Routes mouse input to `component`: through its floating window when it floats, else
        through the parent window. */
    method CaptureInput(component: Component)
      requires Valid() && !IsInputCaptured() && HasFloatingData(component)
      modifies this`capturedComponent, this`capturedType, this`floatingCapture
      ensures Valid() && IsInputCaptured() && capturedComponent == component
      ensures capturedType == component.kind
      ensures var fd := component.data[FloatingDataKey].value;
        floatingCapture == (if fd.floating then fd.window else None)
    {
      var fd := component.data[FloatingDataKey].value;
      if fd.floating {
        floatingCapture := fd.window;
      }
      capturedComponent := component;
      capturedType := component.kind;
    }

    /** Ends any capture; nothing is captured afterwards. */
    method ReleaseInput()
      requires Valid()
      modifies this`capturedComponent, this`capturedType, this`floatingCapture
      ensures Valid() && !IsInputCaptured() && CapturedWindow().None?
      ensures capturedType == Undefined && floatingCapture.None?
    {
      if capturedComponent == null {
        return;
      }
      floatingCapture := None;
      capturedComponent := null;
      capturedType := Undefined;
    }

    /** Enables plugin `p` and disables every other one. */
    method SetActiveInterface(p: int)
      requires Valid()
      modifies this`activeInterface, plugins`enabled
      ensures Valid() && activeInterface == p
      ensures forall i :: 0 <= i < |plugins| ==> (plugins[i].enabled <==> i == p)
    {
      var i := 0;
      while i < |plugins|
        invariant 0 <= i <= |plugins|
        invariant forall j :: 0 <= j < i ==> (plugins[j].enabled <==> j == p)
      {
        plugins[i].enabled := i == p;
        i := i + 1;
      }
      activeInterface := p;
    }

    /** Appends a plugin whose initialisation succeeds and returns its index, making it the
        active one when `select` is set; returns -1 and adds nothing when it fails. */
    method AddInterfacePlugin(plugin: InterfacePlugin, select: bool) returns (index: int)
      requires Valid() && plugin !in plugins
      modifies this`plugins, this`activeInterface, plugins`enabled, plugin`enabled
      ensures Valid()
      ensures !plugin.initializes ==> index == -1 && plugins == old(plugins)
      ensures plugin.initializes ==> plugins == old(plugins) + [plugin] && index == |plugins| - 1
      ensures select && plugin.initializes ==>
        activeInterface == index && forall i :: 0 <= i < |plugins| ==> (plugins[i].enabled <==> i == index)
      ensures !(select && plugin.initializes) ==>
        activeInterface == old(activeInterface) && forall q :: q in plugins ==> q.enabled == old(q.enabled)
    {
      if !plugin.initializes {
        return -1;
      }
      plugins := plugins + [plugin];
      index := |plugins| - 1;
      if select {
        SetActiveInterface(|plugins| - 1);
      }
    }

    /** Shuts plugin `i` down and removes it from the list. */
    method RemoveInterfacePlugin(i: int)
      requires Valid() && 0 <= i < |plugins|
      modifies this`plugins, {plugins[i]}`shutDown
      ensures Valid() && plugins == old(plugins[..i] + plugins[i + 1..])
      ensures old(plugins[i]).shutDown
    {
      plugins[i].shutDown := true;
      plugins := plugins[..i] + plugins[i + 1..];
    }

    /** Removes the plugins from the front until none is left; every one is shut down. */
    method RemoveAllInterfacePlugins()
      requires Valid()
      modifies this`plugins, plugins`shutDown
      ensures Valid() && plugins == []
      ensures forall q :: q in old(plugins) ==> q.shutDown
    {
      while |plugins| > 0
        invariant Valid()
        invariant |plugins| <= |old(plugins)| && plugins == old(plugins)[|old(plugins)| - |plugins|..]
        invariant forall j :: 0 <= j < |old(plugins)| - |plugins| ==> old(plugins)[j].shutDown
        decreases |plugins|
      {
        RemoveInterfacePlugin(0);
      }
    }

    function RectNow(): RectState
      reads this
    {
      RectState(useUpdateRect, updateRect)
    }

    /** Stores a rectangle that every later Update uses. */
    method SetInterfaceRect(rect: Rect)
      modifies this`useUpdateRect, this`updateRect
      ensures RectNow() == RectState(true, rect)
    {
      useUpdateRect := true;
      updateRect := rect;
    }

    /** Stops using the stored rectangle; the next Update chooses afresh. */
    method ResetInterfaceRect()
      modifies this`useUpdateRect
      ensures !useUpdateRect && updateRect == old(updateRect)
    {
      useUpdateRect := false;
    }

    /** Chooses the layout rectangle and sends UPDATE with it to the active plugin; `client` is
        the parent window's client rectangle. */
    method Update(rect: Rect, floating: bool, client: Rect)
      requires 0 <= activeInterface < |plugins|
      modifies this`useUpdateRect, this`updateRect, {plugins[activeInterface]}`log
      ensures RectNow() == ChooseRect(old(RectNow()), rect, client)
      ensures plugins[activeInterface].log == old(plugins[activeInterface].log) + [UpdateEvent(updateRect, floating)]
    {
      if !useUpdateRect {
        if rect == DefaultRect {
          updateRect := client;
        } else {
          updateRect := rect;
          useUpdateRect := true;
        }
      }
      plugins[activeInterface].Process(UpdateEvent(updateRect, floating));
    }

    function Status(): StatusLine
      reads this
    {
      StatusLine(statusbarPane, statusMessageDisplayed, oldStatusMessage, statusTexts)
    }

    /** Chooses the status bar pane for messages (DisableStatusMessages turns them off). */
    method SetStatusMessagePane(pane: int)
      modifies this`statusbarPane
      ensures statusbarPane == pane
    {
      statusbarPane := pane;
    }

    method DisplayStatusMessage(message: string)
      modifies this`statusMessageDisplayed, this`oldStatusMessage, this`statusTexts
      ensures Status() == ShowMessage(old(Status()), message)
    {
      if statusbarPane != DisableStatusMessages {
        if !statusMessageDisplayed {
          statusMessageDisplayed := true;
          oldStatusMessage := TextOf(statusTexts, statusbarPane);
        }
        statusTexts := statusTexts[statusbarPane := message];
      }
    }

    method ResetStatusMessage()
      modifies this`statusMessageDisplayed, this`oldStatusMessage, this`statusTexts
      ensures Status() == RestoreMessage(old(Status()))
    {
      if statusbarPane != DisableStatusMessages {
        if statusMessageDisplayed {
          statusMessageDisplayed := false;
          statusTexts := statusTexts[statusbarPane := oldStatusMessage];
          oldStatusMessage := "";
        }
      }
    }
  }

  /** The counters behind GetNewDataKey (from 0), GetNewComponentType and GetNewChildType (from
      1): each call returns the next number. `issued` records what was handed out. */
  class KeyCounter {
    var next: int
    ghost const first: int
    ghost var issued: set<int>

    ghost predicate Valid()
      reads this
    {
      first <= next && forall k :: k in issued ==> first <= k < next
    }

    constructor (start: int)
      ensures Valid() && next == start && first == start && issued == {}
    {
      next := start;
      first := start;
      issued := {};
    }

    /** Returns the counter and increments it: a number never handed out before, not below the
        start value. */
    method Issue() returns (k: int)
      requires Valid()
      modifies this`next, this`issued
      ensures Valid() && k == old(next) && next == old(next) + 1
      ensures k !in old(issued) && k >= first && issued == old(issued) + {k}
    {
      k := next;
      next := next + 1;
      issued := issued + {k};
    }
  }
}
