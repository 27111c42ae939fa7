# wxIFM docking core in Dafny

This project models the core of wxIFM, the Interface Management library for wxWidgets. It covers
the default docking plugin and the parts of the interface manager the plugin relies on.

- `rects.dfy` (module `Rects`): points and rectangles with wxRect's pixel semantics
  (`Contains`, `Intersects`), and the truncating integer division of C++.
- `defs.dfy` (module `IfmDefs`): the shared definitions of `include/wx/ifm/ifmdefs.h`. These are
  the alignment codes; the size, index, rectangle and status-pane sentinels; the component type
  codes; and `wxIFMDimensions` as a class with mutable sides.
- `manager.dfy` (module `Manager`): components, interface plugins and the interface manager.
  - Components form a tree with visibility flags and extension data.
  - The manager holds the input capture, the plugin list and the active plugin. It also holds
    the layout rectangle used by `Update` and the status-bar message.
  - The class `KeyCounter` stands for the data-key, component-type and child-type counters.
  - Sending an event to a plugin (`ProcessPluginEvent`) appends it to the plugin's `log`. What
    other plugins do with the event is not modelled.
- `placement.dfy` (module `DockPlacement`): where a dropped component goes.
  - `DropPlan` is the decision part of `OnDragEnd`. It is a pure function of the button and of
    what the drop logic reads of the button's component and its ancestors.
  - `AdjustDock` is the index and alignment adjustment of `OnDock`.
- `targets.dfy` (module `DropTargets`): the geometry of the nine drop-target buttons. Five form a
  cross around a centre; four sit just inside the interface rectangle's edges and are nudged out
  of the cross's way.
- `docking.dfy` (module `Docking`): the docking plugin as a class.
  - The class keeps its drag state, its button list and the function-local statics of the C++.
  - Its event handlers are methods proved against the functions of the modules above.
  - The buttons are a class whose `shown`, `hover`, `pos` and `component` fields are updated in
    place.

Screen and client coordinates are taken to coincide. The results the toolkit or other plugins
would supply are parameters of the handlers:
- the component under the pointer;
- the parent's client rectangle;
- the rectangle a GETRECT request returns;
- the system drag metrics.

Ghost `tree` parameters name the set of components a handler's tree walk stays within.

## Model

| member | source | states |
|---|---|---|
| Rects.CDiv | src/ifm/dragndrop.cpp:998-999 | C++ division by a positive divisor truncates toward zero. The quotient times the divisor stays within one divisor of the dividend, on the dividend's side of zero. |
| Rects.IntersectsIffCommonPixel | src/ifm/dragndrop.cpp:1076-1077 | Two rectangles intersect (as wxRect::Intersects clips them) exactly when some pixel lies in both. |
| IfmDefs.AlignmentFromCode | include/wx/ifm/ifmdefs.h:101-103 | Only the integers 0, 1 and 2 are alignment codes. |
| IfmDefs.AlignmentCodesRoundTrip | include/wx/ifm/ifmdefs.h:101-103 | Decoding an alignment's code gives the alignment back, and a decoded code re-encodes to itself. So the three codes are distinct. |
| IfmDefs.EncodeSize | include/wx/ifm/ifmdefs.h:112-114 | A size is negative exactly when it is one of the sentinels "use current value", "no maximum" and "no minimum". |
| IfmDefs.DecodeSize | include/wx/ifm/ifmdefs.h:112-114 | Every integer from -3 up is a pixel count or a sentinel; nothing below -3 is. |
| IfmDefs.SizeSentinelsRoundTrip | include/wx/ifm/ifmdefs.h:112-114 | Decoding recovers every encoded size, and every decodable integer re-encodes to itself. So the sentinels differ from each other and from every pixel count. |
| IfmDefs.Dimensions.constructor | include/wx/ifm/ifmdefs.h:144-150 | A new dimensions record has all four sides 0. |
| IfmDefs.Dimensions.Set | include/wx/ifm/ifmdefs.h:156-162 | Every side becomes the given value. |
| IfmDefs.Dimensions.Assign | include/wx/ifm/ifmdefs.h:164-171 | The record takes the four sides of the source record, the source is left unchanged, and the record itself is returned. |
| Manager.InterfacePlugin.Process | src/ifm/manager.cpp:370-371 | Sending an event appends exactly that event to the plugin's event log. |
| Manager.Component.constructor | src/ifm/manager.cpp:666-686 | A new component is shown, visible, undocked and without alignment, parent or children. Its only extension data is floating data saying it does not float, with the default rectangle (see manager.cpp 975-981). |
| Manager.Component.Show | src/ifm/manager.cpp:892-902 | SHOWCOMPONENT is sent once. Afterwards the component is shown exactly as asked, and it is visible exactly when it is shown and its visibility flag is set. |
| Manager.Component.VisibilityChanged | src/ifm/manager.cpp:904-917 | The flag takes the new value. The visibility-changed event is sent exactly when the value changes, and never when it stays the same. |
| Manager.Component.AddExtensionData | src/ifm/manager.cpp:708-711 | The data is stored under its own key, replacing only that entry. |
| Manager.Component.GetExtensionData | src/ifm/manager.cpp:713-716 | A stored key yields its value and changes nothing. A missing key yields null and is then present with a null value, as the wxWidgets hash map's operator[] leaves it (the data map is a WX_DECLARE_HASH_MAP, ifmdefs.h:70). |
| Manager.Component.RemoveExtensionData | src/ifm/manager.cpp:718-723 | Returns what was stored under the key (null when nothing was) and removes that key and no other. |
| Manager.Component.GetNextVisibleComponent | src/ifm/manager.cpp:725-735 | Returns the least index at or after `start` whose component is visible, or -1 when there is none. |
| Manager.Component.IsChildOf | src/ifm/manager.cpp:737-758 | The result is true exactly when `child` is reached from `parent` by one or more child links. |
| Manager.Component.IsShown | src/ifm/manager.cpp:899-902 | A component is shown exactly when it is not hidden. |
| Manager.Component.IsVisible | src/ifm/manager.cpp:914-917 | A component is visible exactly when it is shown and its visibility flag is set; in particular only a shown component is visible. |
| Manager.ShowMessage | src/ifm/manager.cpp:415-427 | With the pane disabled the status line is unchanged. Otherwise the pane shows the message, every other pane keeps its text, the line is marked displayed, and the text saved is the one already saved if a message was displayed, else the pane's current text. |
| Manager.RestoreMessage | src/ifm/manager.cpp:429-440 | With the pane disabled or no message displayed the status line is unchanged. Otherwise the pane gets the saved text back, every other pane keeps its text and the line is no longer marked displayed. |
| Manager.BelowLowersRank | src/ifm/manager.cpp:737-758 | Every descendant lies in the tree and is lower than its ancestor, so the recursive search terminates. |
| Manager.BelowIsProper | src/ifm/manager.cpp:737-758 | No component is its own descendant. |
| Manager.BelowIsTransitive | src/ifm/manager.cpp:737-758 | A descendant of a descendant is a descendant. |
| Manager.ShowAllSavesFirstText | src/ifm/manager.cpp:415-427 | After one or more status messages the pane shows the last one. The text saved is the pane's text from before the first message, since later messages never overwrite it. |
| Manager.MessagesThenResetRestore | src/ifm/manager.cpp:415-440 | Any run of messages followed by one reset restores every pane's text from before the run and clears the "displayed" flag. |
| Manager.DisabledPaneShowsNothing | src/ifm/manager.cpp:415-440 | With status messages disabled, displaying messages changes nothing, and a reset afterwards changes nothing either. |
| Manager.ResetIsIdempotent | src/ifm/manager.cpp:429-440 | A second reset in a row changes nothing. |
| Manager.ChooseRect | src/ifm/manager.cpp:350-364 | The rectangle becomes stored exactly when it was already stored or an explicit rectangle is asked for. A stored rectangle is never replaced. |
| Manager.FirstExplicit | src/ifm/manager.cpp:350-364 | Finds the first Update call that asks for an explicit rectangle; every call before it asks for the default. |
| Manager.UpdateRectSettles | src/ifm/manager.cpp:350-364 | From no stored rectangle, a run of Update calls ends on the first explicit rectangle asked for, which is then stored for good. If every call asks for the default, the run ends on the last client rectangle, still not stored. |
| Manager.StoredRectSticks | src/ifm/manager.cpp:94-98 | Once a rectangle is stored, every later Update uses it whatever it asks for. |
| Manager.InterfaceManager.constructor | src/ifm/manager.cpp:61-77 | A new manager captures nothing and has no plugins, no stored rectangle and status messages disabled. Its update rectangle is the default-constructed wxRect, (0, 0, 0, 0). |
| Manager.InterfaceManager.IsInputCaptured | src/ifm/manager.cpp:135-138 | Input is captured exactly when there is a captured component. |
| Manager.InterfaceManager.CapturedWindow | src/ifm/manager.cpp:337-348 | There is a capture window exactly when input is captured. Without a floating window it is the parent window. |
| Manager.InterfaceManager.CaptureInput | src/ifm/manager.cpp:297-315 | Input becomes captured by the component, with its type recorded. The floating window is recorded exactly when the component floats. |
| Manager.InterfaceManager.ReleaseInput | src/ifm/manager.cpp:317-335 | Afterwards nothing is captured, there is no capture window and the captured type is undefined. |
| Manager.InterfaceManager.SetActiveInterface | src/ifm/manager.cpp:244-260 | The chosen plugin becomes active; it is enabled and every other plugin is disabled. |
| Manager.InterfaceManager.AddInterfacePlugin | src/ifm/manager.cpp:221-242 | A plugin that fails to initialise is not added and -1 is returned. Otherwise it is appended and its index returned, and with `select` it becomes the only enabled plugin. Without `select`, nobody's enabled flag changes. |
| Manager.InterfaceManager.RemoveInterfacePlugin | src/ifm/manager.cpp:262-274 | The plugin is shut down and removed; the others keep their order. |
| Manager.InterfaceManager.RemoveAllInterfacePlugins | src/ifm/manager.cpp:276-280 | The list ends empty and every plugin that was in it is shut down. |
| Manager.InterfaceManager.SetInterfaceRect | src/ifm/manager.cpp:94-98 | The given rectangle is stored, so every later Update uses it. |
| Manager.InterfaceManager.ResetInterfaceRect | src/ifm/manager.cpp:100-103 | The rectangle is no longer stored, so the next Update chooses afresh. |
| Manager.InterfaceManager.Update | src/ifm/manager.cpp:350-372 | The rectangle state moves as ChooseRect says, and exactly one UPDATE carrying the chosen rectangle goes to the active plugin. |
| Manager.InterfaceManager.SetStatusMessagePane | src/ifm/manager.cpp:408-413 | The chosen pane is recorded. |
| Manager.InterfaceManager.DisplayStatusMessage | src/ifm/manager.cpp:415-427 | The status state moves as ShowMessage says: the first message saves the pane's text, and a disabled pane is untouched. |
| Manager.InterfaceManager.ResetStatusMessage | src/ifm/manager.cpp:429-440 | The status state moves as RestoreMessage says: a displayed message is replaced by the saved text. |
| Manager.KeyCounter.constructor | src/ifm/manager.cpp:37-56 | A counter starts at its start value (0 for data keys, 1 for component and child types) with nothing issued. |
| Manager.KeyCounter.Issue | src/ifm/manager.cpp:37-56 | Each call returns the current value and advances by one. The number returned was never issued before and is not below the start. |
| DockPlacement.DestinationLevel | src/ifm/dragndrop.cpp:490-509 | The destination is the button's component, or its parent when the parent is a single-child top-level container and the button points across that container. |
| DockPlacement.AdjustDock | src/ifm/dragndrop.cpp:754-803 | A side request across the container's axis turns a single-child container and splits any other; every other request passes on. A split keeps the index, and a pass-on keeps it or moves it up by one, the latter exactly for a non-frame east button on a horizontal container or south button on a vertical one. |
| DockPlacement.DropPlan | src/ifm/dragndrop.cpp:418-615 | Any level a docking request names lies on the button component's chain of ancestors; which request is chosen is stated by DropPlanChoosesKind. |
| DockPlacement.DropPlanChoosesKind | src/ifm/dragndrop.cpp:486-613 | For every button and chain, with `d` the destination: a new top-level container beside `d` exactly when `d` is an undocked container and the button points across its axis; a side request to `d` at index 0 exactly when it is docked; an end-of-row dock exactly for a container's along-axis button or a panel's tab button; the generic side request to the parent, at `d`'s index, exactly for any other drop when `d` has a parent; and nothing docked exactly in the remaining cases. |
| DockPlacement.FrameDropFacesButton | src/ifm/dragndrop.cpp:418-483 | A drop on a button without a component makes a top-level container on the edge the button points to, with its children laid out along that edge. A frame button puts it first in the top-level list; a content-area button puts it last. |
| DockPlacement.BesideDropLandsOnButtonSide | src/ifm/dragndrop.cpp:515-562 | A drop beside an undocked top-level container lands on the side the button points to, the orientation inversion included. The new container copies the destination's layout. |
| DockPlacement.EndDropLandsOnButtonSide | src/ifm/dragndrop.cpp:572-585 | A drop on a container's button along its axis docks the component at the end of the row the button points to. |
| DockPlacement.TabDropAppendsTab | src/ifm/dragndrop.cpp:587-593 | The tab button over a panel appends the component as a tab; over a container it docks nothing. |
| DockPlacement.FallbackDropLandsNextToComponent | src/ifm/dragndrop.cpp:594-613 | In the generic fallback, followed by the docking handler's adjustment, the component lands directly before (west or north) or after (east or south) the target in its parent. |
| DockPlacement.AlongAxisDockLandsBesideChild | src/ifm/dragndrop.cpp:743-811 | A side request along the container's axis is passed on. The index moves up by exactly one for an east or south side and stays put for a west or north side. |
| DockPlacement.AcrossAxisDockTurnsOrSplits | src/ifm/dragndrop.cpp:743-811 | A request across the axis is never passed on unchanged. A single-child container turns; otherwise the child is wrapped. Either way the resulting container runs along the requested side. |
| DockPlacement.SplitRedispatchSettles | src/ifm/dragndrop.cpp:743-811 | After a split, the request re-sent to the new container passes on without a further split, at index 0 or 1. |
| DockPlacement.FrameAndTabRequestsPassOn | src/ifm/dragndrop.cpp:743-811 | Requests naming a frame button or the tab button pass on unchanged. |
| DropTargets.CrossAt | src/ifm/dragndrop.cpp:1029-1062 | The tab button covers the centre, and the cross's rectangle is the 3w x 3w square whose corner is at the left button's x and the top button's y. |
| DropTargets.CrossTilesItsBounds | src/ifm/dragndrop.cpp:1024-1059 | The tab button covers the centre and the other four sit one button width away in their own directions. All five lie inside the 3w x 3w cross rectangle and no two overlap. |
| DropTargets.FrameButtonHome | src/ifm/dragndrop.cpp:846-865 | Each frame button's home keeps a gap of exactly one button width to its own edge of the interface rectangle, and along that edge it sits at half the edge's length less half a button width (both halves truncated). The same positions are used again when the cross is shown (dragndrop.cpp 1073-1095). |
| DropTargets.FrameButtonsCentredOnEdges | src/ifm/dragndrop.cpp:846-865 | For a rectangle of non-negative size, each frame button's centre line lies within one pixel of the middle of its edge. |
| DropTargets.FrameButtonsInsetByOneWidth | src/ifm/dragndrop.cpp:1068-1094 | Each frame button keeps one button width from its own edge. The left and right buttons share a row, and the top and bottom buttons share a column. |
| DropTargets.Nudge | src/ifm/dragndrop.cpp:1075-1097 | A nudged frame button never overlaps the cross. It moves only when its home overlapped the cross; the left and right buttons move only vertically, the top and bottom buttons only horizontally. |
| DropTargets.NudgeLandsFlushAgainstCross | src/ifm/dragndrop.cpp:1068-1098 | A frame button that overlapped the cross lands flush against it: a left or right button directly above the cross's top row, a top or bottom button directly left of its left column. |
| DropTargets.TargetPositions | src/ifm/dragndrop.cpp:1024-1098 | The layout places exactly nine buttons. |
| DropTargets.FrameButtonsMissCross | src/ifm/dragndrop.cpp:1068-1098 | In the full layout none of the four frame buttons meets the cross's rectangle. |
| DropTargets.CrossButtonsApart | src/ifm/dragndrop.cpp:1024-1062 | In the full layout the five cross buttons lie inside the cross's rectangle and no two overlap. |
| DropTargets.CrossStandsClear | src/ifm/dragndrop.cpp:1024-1098 | In the full layout the tab button covers the centre and no cross button overlaps any other button. |
| Docking.BeyondThreshold | src/ifm/dragndrop.cpp:192-199 | The pointer has moved beyond the drag threshold exactly when it is more than the horizontal threshold away from the click position horizontally, or more than the vertical threshold away vertically. |
| Docking.Centre | src/ifm/dragndrop.cpp:998-1000 | The centre of a non-empty rectangle lies inside it, and for any rectangle of non-negative size it lies in its top-left half on both axes (division truncates). |
| Docking.HoverTarget | src/ifm/dragndrop.cpp:719-722 | Drop targets are requested for nothing when the pointer is over nothing, for the panel when it is over a panel tab, and for the component itself otherwise. |
| Docking.PlanEvents | src/ifm/dragndrop.cpp:418-613 | A plan sends no event exactly when it docks nothing. A plan that makes a new top-level container sends three events: NEWCOMPONENT first, and among them the dock of the component into the new container at index 0. Every other plan sends exactly one event. Every dock event moves the dropped component, and a plain or side dock names the destination level of the component's chain. |
| Docking.DetachEvents | src/ifm/dragndrop.cpp:383-408 | At most one event is sent, an UNDOCK or a REMOVETOPCONTAINER for the dropped component. Nothing is sent exactly when the component has no parent and floats. |
| Docking.Suppressed | src/ifm/dragndrop.cpp:964-992 | Over nothing, the cross is hidden exactly when the pointer is outside the parent window. It is always hidden over the dragged component, its parent when that holds only it, the root of a floating window, or one of the dragged component's descendants. Over any other component that is docked or does not float it is shown. |
| Docking.FirstHit | src/ifm/dragndrop.cpp:1110-1129 | Gives the first shown button containing the point, or -1; no earlier shown button contains it. |
| Docking.CentreSelectsTab | src/ifm/dragndrop.cpp:1024-1129 | With the nine buttons shown at the layout for a centre, the pointer at that centre selects the tab button. |
| Docking.IndexOf | src/ifm/dragndrop.cpp:599-609 | The position is that of the first occurrence, or the length when the component is absent. |
| Docking.ChainOf | src/ifm/dragndrop.cpp:486-613 | The chain is the component followed by up to two ancestors, each the parent of the one before, and it is cut short only at the root. |
| Docking.NodesOf | src/ifm/dragndrop.cpp:486-613 | Each node is what the drop logic reads of the corresponding component. |
| Docking.HidesComponentButtons | src/ifm/dragndrop.cpp:966-993 | The test agrees with Suppressed. The cross is hidden when the pointer is outside the parent window over nothing, or over one of: the dragged component, its single-child parent, a floating root, or a descendant of the dragged component. |
| Docking.DockButton.constructor | src/ifm/dragndrop.cpp:1161-1173 | A new button has its id and position, is hidden, not highlighted and targets no component. |
| Docking.DockButton.SetHover | src/ifm/dragndrop.cpp:1175-1182 | The highlight takes the requested value, and a repaint happens exactly when it changes. |
| Docking.DockingPlugin.constructor | src/ifm/dragndrop.cpp:64-75 | A new plugin is valid: not captured, not dragging, with zero drag thresholds and no buttons. |
| Docking.DockingPlugin.OnLeftUp | src/ifm/dragndrop.cpp:157-176 | The capture and the drag both end. A drag in progress sends an uncancelled ENDDRAG; otherwise the event is skipped with nothing sent. |
| Docking.DockingPlugin.OnMouseMove | src/ifm/dragndrop.cpp:178-211 | While dragging, DRAGGING is sent. While captured but not dragging, BEGINDRAG is sent exactly when the pointer moved beyond a threshold. Otherwise the event is skipped. |
| Docking.DockingPlugin.OnKeyDown | src/ifm/dragndrop.cpp:213-243 | While dragging, Escape ends the drag and the capture and sends a cancelled ENDDRAG. Alt, Shift and Control resend DRAGGING with the current pointer and key state. Every other case changes nothing. |
| Docking.DockingPlugin.OnDragInit | src/ifm/dragndrop.cpp:245-267 | Without a capture, a component captures input. The click position is recorded, and each system metric becomes the threshold, with -1 meaning the default distance. Otherwise nothing changes. |
| Docking.DockingPlugin.CreateTargetButtons | src/ifm/dragndrop.cpp:835-891 | Creates nine new hidden buttons in button order. The frame buttons are at their home positions inside the interface rectangle; the rest are off screen. |
| Docking.DockingPlugin.MakeButtons | src/ifm/dragndrop.cpp:835-891 | The nine buttons are new, distinct, in button order, hidden, not highlighted and placed as above. |
| Docking.DockingPlugin.DestroyTargetButtons | src/ifm/dragndrop.cpp:893-900 | Every button is destroyed and the list ends empty. |
| Docking.DockingPlugin.ShowFrameDropButtons | src/ifm/dragndrop.cpp:902-926 | The four frame buttons take the requested visibility and the others keep theirs. Asking for the current state changes no button. |
| Docking.DockingPlugin.ShowComponentDropButtons | src/ifm/dragndrop.cpp:928-950 | The five component buttons take the requested visibility and the frame buttons keep theirs. Asking for the current state changes no button. |
| Docking.DockingPlugin.GetDockTargetButtonByPos | src/ifm/dragndrop.cpp:1110-1129 | Returns the first shown button under the point, as FirstHit finds it, or null. |
| Docking.DockingPlugin.OnDragBegin | src/ifm/dragndrop.cpp:269-357 | The plugin starts dragging and records the position and the pointer's offset. The nine buttons are created and only the frame buttons are shown. The help text is displayed as DisplayStatusMessage says. |
| Docking.DockingPlugin.SetUpButtons | src/ifm/dragndrop.cpp:350-353 | The buttons exist in button order and only the frame buttons are shown. |
| Docking.DockingPlugin.OnDrag | src/ifm/dragndrop.cpp:663-741 | The first shown button under the pointer becomes the remembered, highlighted one; the one remembered before loses its highlight. Over a button nothing is sent. Elsewhere Shift hides every button. Otherwise exactly one SHOWDROPTARGETS goes out, for the component under the pointer, or for the one frozen while Alt stays down, with a tab standing for its panel. Over a button or with Shift down, the frozen component and its flag are kept. Off the buttons without Shift, no button's visibility changes. |
| Docking.DockingPlugin.AwayFromButtons | src/ifm/dragndrop.cpp:695-734 | Shift hides every button, sends nothing and keeps the frozen component; otherwise the drop targets are requested. The position is recorded either way. |
| Docking.DockingPlugin.RequestDropTargets | src/ifm/dragndrop.cpp:702-725 | Alt freezes the first component seen until it is released, and releasing Alt forgets it. The request names the frozen or current component, or its panel for a tab. |
| Docking.DockingPlugin.MoveHighlight | src/ifm/dragndrop.cpp:737-740 | The given button is highlighted and remembered. The previous one, when different, is unhighlighted. |
| Docking.DockingPlugin.OnShowDropTargets | src/ifm/dragndrop.cpp:952-1108 | The frame buttons are shown. When Suppressed holds, the component buttons are hidden, nothing is sent and no button moves or changes target. Otherwise one rect query is sent, and the component buttons are shown and aimed at the hovered component while the frame buttons keep their targets. All nine stand at TargetPositions for the centre of the reported rectangle. |
| Docking.DockingPlugin.AimCross | src/ifm/dragndrop.cpp:995-1108 | One rect query is sent for the hovered component; the component buttons are shown and aimed at it, the frame buttons keep their targets, and all nine stand at TargetPositions for the centre of the reported rectangle. |
| Docking.DockingPlugin.ShowCross | src/ifm/dragndrop.cpp:1002-1108 | The component buttons are shown, all nine stand at the given positions, the component buttons target the given component and the frame buttons keep their targets. |
| Docking.DockingPlugin.MoveButtons | src/ifm/dragndrop.cpp:1024-1098 | Every button stands at its given position. |
| Docking.DockingPlugin.SetButtonComponents | src/ifm/dragndrop.cpp:1100-1107 | Every button from the fifth on targets the given component; the four frame buttons keep their targets. |
| Docking.DockingPlugin.Positions | src/ifm/dragndrop.cpp:1024-1098 | Lists the buttons' positions in order. |
| Docking.DockingPlugin.IndexInParent | src/ifm/dragndrop.cpp:597-609 | The iterator loop counts to the component's first position among its parent's children. |
| Docking.DockingPlugin.Chain | src/ifm/dragndrop.cpp:486-613 | Collects the button component's chain and the nodes the drop logic reads, as ChainOf and TargetNodes define them. |
| Docking.DockingPlugin.Carry | src/ifm/dragndrop.cpp:418-613 | A container is created exactly when the plan asks for one. The events sent are exactly those of the plan, and the container receiving the layout gets the plan's alignment and orientation. |
| Docking.DockingPlugin.OnDragEnd | src/ifm/dragndrop.cpp:359-661 | The buttons are always hidden and destroyed, the remembered button forgotten and the status text restored. A cancelled drag, a release off the buttons, or the tab button of no component sends nothing and leaves the rectangle state alone. Any other release sends the detach events, then the events of DropPlan, then one UPDATE with the rectangle ChooseRect picks for the default rectangle. |
| Docking.DockingPlugin.TearDown | src/ifm/dragndrop.cpp:361-362 | Every button is hidden and destroyed, the list is empty and no button is remembered. |
| Docking.DockingPlugin.Drop | src/ifm/dragndrop.cpp:380-641 | The events are the detach events, then the events of DropPlan for the button, then one UPDATE of the rectangle ChooseRect picks for the default. |
| Docking.DockingPlugin.Detach | src/ifm/dragndrop.cpp:380-409 | UNDOCK is sent for a component with a parent, and REMOVETOPCONTAINER for a top-level container that does not float. Nothing is sent for a floating window's root. |
| Docking.DockingPlugin.OnDock | src/ifm/dragndrop.cpp:743-811 | A plain dock request passes unchanged. A side request follows AdjustDock. PassOn changes only the index, and Turn flips only the destination's alignment. Split creates a new container of the other alignment and sends new-container, dock, undock, re-dock and dock-ex, in that order; the request is then consumed. |

## Left out

- Floating windows are not modelled beyond the floating data a component carries. This leaves
  out the floating branch of OnDragBegin and OnLeftDClick. It also leaves out
  GetFloatingComponentByPosExclusion, the moving of the floating window in OnDrag, and, in
  OnDragEnd, the UPDATECOMPONENT sent to a floating destination, the update of the floating
  parent and the pending DESTROYFLOATINGWINDOW. They create, move and destroy toolkit windows.
- Painting, cursors, focus and other toolkit calls are not modelled. ClientToScreen and
  ScreenToClient are the identity. The system metrics, the parent's client rectangle, the
  component under the pointer and the rectangle a GETRECT returns are handler parameters.
- The status bar is a map from pane to text; writing to a real status bar is I/O.
- dragndrop.h, definterface.h and plugin.h are not part of this model. IFM_DRAG_DISTANCE,
  IFM_DOCK_TARGET_BUTTON_WIDTH and IFM_FLOATING_DATA_KEY are therefore constants of unspecified
  value; the button width is only required to be positive.
- A container's orientation, which the source keeps in its container data, is a field of the
  component.
- The component created for NEWCOMPONENT is created by the docking plugin rather than by the
  plugin that handles the event. The source's note that this may return null is not modelled.
- Other plugins' handlers do not run, so the tree a drop reads after UNDOCK is the tree from
  before it.
- The statics of OnDrag, ShowFrameDropButtons and ShowComponentDropButtons are fields of one
  plugin object; the C++ shares them among all instances.
- The default-plugin setup of Initialize and the chaining of extension plugins behind an
  interface plugin are not modelled.
- IfmDefs.DecodeSize: IFM_USE_CHILD_MINSIZE (ifmdefs.h:117) is wxSize(-2,-2), the same value as
  IFM_NO_MAXIMUM. In a minimum-size field -2 means "ask the child for its best size", a meaning
  that depends on the field and is not captured: -2 always decodes to NoMaximum.
- Manager.KeyCounter.Issue: does not model the wrap-around of the C++ `int` counter after
  2^31 - 1 calls, because the integers are unbounded.
- Docking.Abs: an unbounded absolute value, which does not model the overflow of `abs` on the
  most negative `int`.
- Manager.InterfaceManager.AddInterfacePlugin: requires the plugin not to be listed already,
  which the C++ does not check, so that the list stays duplicate-free.
- Manager.InterfaceManager.RemoveInterfacePlugin: does not adjust the active plugin's index,
  exactly as the C++ does not.
- Docking.DockingPlugin.OnDragBegin: requires no buttons to exist, which the drag state machine
  guarantees because OnDragEnd always destroys them.
- Docking.DockingPlugin.OnDragEnd: requires the active interface to be this plugin's, so that the
  final UPDATE is the one logged.
- Docking.DockingPlugin.ShowFrameDropButtons: requires the buttons to exist when they are to be
  shown; the C++ would index past the end of an empty array.
- Docking.DockingPlugin.ShowComponentDropButtons: requires the buttons to exist when they are to
  be shown. The C++ loop would simply run zero times on an empty array but still record "shown",
  which the model's invariant (no buttons, nothing shown) excludes; the only caller that shows
  them, OnShowDropTargets, has already shown the frame buttons and indexes all nine.
- Docking.DockingPlugin.OnDock: requires, for a split, that `index` names a child; the C++ reads
  the child array without a check.
