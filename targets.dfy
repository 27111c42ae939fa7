/** Placement of the drop-target buttons (wxIFMDefaultDockingPlugin::CreateTargetButtons and
    OnShowDropTargets, src/ifm/dragndrop.cpp): five square buttons of width `w` arranged as a
    cross around a centre point, and four frame buttons just inside the edges of the interface
    rectangle, each moved aside when it overlaps the cross. */
module DropTargets {
  import opened Rects
  import opened DockPlacement

  /** The square a button with top-left corner `p` covers. */
  function ButtonRect(p: Point, w: int): Rect {
    Rect(p.x, p.y, w, w)
  }

  /** Top-left corners of the five cross buttons and the rectangle enclosing the cross. */
  datatype Cross = Cross(tab: Point, bottom: Point, right: Point, top: Point, left: Point, bounds: Rect)

  /** The cross centred on `center`: the tab button covers the centre and the enclosing
      rectangle is the 3w x 3w square spanned by the left and top buttons. */
  function CrossAt(center: Point, w: int): (c: Cross)
    requires w > 0
    ensures ButtonRect(c.tab, w).Contains(center)
    ensures c.bounds == Rect(c.left.x, c.top.y, 3 * w, 3 * w)
  {
    var tab := Point(center.x - CDiv(w, 2), center.y - CDiv(w, 2));
    var top := Point(tab.x, tab.y - w);
    var left := Point(tab.x - w, tab.y);
    Cross(tab, Point(tab.x, tab.y + w), Point(tab.x + w, tab.y), top, left,
          Rect(left.x, top.y, w * 3, w * 3))
  }

  /** The tab button covers the centre point, each of the other four sits one button width away
      from it in its own direction, all five lie inside the enclosing 3w x 3w rectangle, and no
      two of them overlap. */
  lemma CrossTilesItsBounds(center: Point, w: int)
    requires w > 0
    ensures var c := CrossAt(center, w);
      && ButtonRect(c.tab, w).Contains(center)
      && c.bottom == Point(c.tab.x, c.tab.y + w) && c.top == Point(c.tab.x, c.tab.y - w)
      && c.right == Point(c.tab.x + w, c.tab.y) && c.left == Point(c.tab.x - w, c.tab.y)
      && c.bounds.width == 3 * w && c.bounds.height == 3 * w
      && (forall p <- CrossPositions(c) :: ButtonRect(p, w).Within(c.bounds))
      && (forall i, j | 0 <= i < j < 5 ::
            !ButtonRect(CrossPositions(c)[i], w).Intersects(ButtonRect(CrossPositions(c)[j], w)))
  {
    var c := CrossAt(center, w);
    var h := CDiv(w, 2);
    assert 0 <= h && h * 2 <= w < h * 2 + 2;
  }

  /** Home position of a frame button, one button width inside its edge of the interface
      rectangle `client` and centred along that edge. */
  function FrameButtonHome(client: Rect, w: int, id: DockId): (p: Point)
    requires w > 0 && id.IsFrame()
    ensures id == FrameLeft ==> ButtonRect(p, w).x - client.x == w
    ensures id == FrameTop ==> ButtonRect(p, w).y - client.y == w
    ensures id == FrameRight ==> client.Right() - ButtonRect(p, w).Right() == w
    ensures id == FrameBottom ==> client.Bottom() - ButtonRect(p, w).Bottom() == w
    ensures id == FrameLeft || id == FrameRight ==> p.y == CDiv(client.height, 2) - CDiv(w, 2) + client.y
    ensures id == FrameTop || id == FrameBottom ==> p.x == CDiv(client.width, 2) - CDiv(w, 2) + client.x
  {
    match id
    case FrameLeft => Point(w + client.x, CDiv(client.height, 2) - CDiv(w, 2) + client.y)
    case FrameTop => Point(CDiv(client.width, 2) - CDiv(w, 2) + client.x, w + client.y)
    case FrameRight => Point(client.width - w - w + client.x, CDiv(client.height, 2) - CDiv(w, 2) + client.y)
    case FrameBottom => Point(CDiv(client.width, 2) - CDiv(w, 2) + client.x, client.height - w - w + client.y)
  }

  /** Each frame button keeps a gap of one button width to its own edge; the left and right
      buttons share a row and the top and bottom buttons share a column. */
  lemma FrameButtonsInsetByOneWidth(client: Rect, w: int)
    requires w > 0
    ensures var l, t, r, b := FrameButtonHome(client, w, FrameLeft), FrameButtonHome(client, w, FrameTop),
                              FrameButtonHome(client, w, FrameRight), FrameButtonHome(client, w, FrameBottom);
      && ButtonRect(l, w).x - client.x == w
      && ButtonRect(t, w).y - client.y == w
      && client.Right() - ButtonRect(r, w).Right() == w
      && client.Bottom() - ButtonRect(b, w).Bottom() == w
      && l.y == r.y && t.x == b.x
  {
  }

  /** Each frame button is centred along its edge: twice the distance from the rectangle's corner
      to the button's centre line is the edge's length, give or take one pixel of truncation. */
  lemma FrameButtonsCentredOnEdges(client: Rect, w: int, id: DockId)
    requires w > 0 && id.IsFrame() && client.width >= 0 && client.height >= 0
    ensures var p := FrameButtonHome(client, w, id);
      && (id == FrameLeft || id == FrameRight ==> client.height - 1 <= 2 * (p.y - client.y) + w <= client.height + 1)
      && (id == FrameTop || id == FrameBottom ==> client.width - 1 <= 2 * (p.x - client.x) + w <= client.width + 1)
  {
    var hw, hh, hv := CDiv(w, 2), CDiv(client.width, 2), CDiv(client.height, 2);
    assert w - 1 <= 2 * hw <= w;
    assert client.width - 1 <= 2 * hh <= client.width;
    assert client.height - 1 <= 2 * hv <= client.height;
  }

  /** Where a frame button at `home` is shown while the cross occupies `bounds`: unchanged when it
      does not overlap the cross, otherwise the left and right buttons move to just above the
      cross and the top and bottom buttons to just left of it. Either way it ends clear of the
      cross, and it moves only along one axis. */
  function Nudge(home: Point, id: DockId, bounds: Rect, w: int): (p: Point)
    requires id.IsFrame()
    ensures !ButtonRect(p, w).Intersects(bounds)
    ensures p != home ==> ButtonRect(home, w).Intersects(bounds)
    ensures id == FrameLeft || id == FrameRight ==> p.x == home.x
    ensures id == FrameTop || id == FrameBottom ==> p.y == home.y
  {
    if ButtonRect(home, w).Intersects(bounds) then
      if id == FrameLeft || id == FrameRight then Point(home.x, bounds.y - w)
      else Point(bounds.x - w, home.y)
    else home
  }

  /** A frame button that overlapped the cross lands flush against it: a left or right button
      directly above the cross's top row, a top or bottom button directly left of its left
      column. */
  lemma NudgeLandsFlushAgainstCross(home: Point, id: DockId, bounds: Rect, w: int)
    requires id.IsFrame() && w > 0 && ButtonRect(home, w).Intersects(bounds)
    ensures var p := Nudge(home, id, bounds, w);
      && (id == FrameLeft || id == FrameRight ==> p.y == bounds.y - w && ButtonRect(p, w).Bottom() == bounds.y - 1)
      && (id == FrameTop || id == FrameBottom ==> p.x == bounds.x - w && ButtonRect(p, w).Right() == bounds.x - 1)
  {
  }

  /** The order in which the nine buttons are created and kept: the four frame buttons, then the
      left, top, right and bottom buttons of the cross and its tab button. */
  const ButtonOrder: seq<DockId> := [FrameLeft, FrameTop, FrameRight, FrameBottom, Left, Top, Right, Bottom, Tab]

  /** Where each of the nine buttons, in ButtonOrder, is placed when the cross is centred on
      `center` inside the interface rectangle `client`. */
  function TargetPositions(center: Point, client: Rect, w: int): (ps: seq<Point>)
    requires w > 0
    ensures |ps| == 9
  {
    var c := CrossAt(center, w);
    FramePositions(client, c.bounds, w) + CrossPositions(c)
  }

  /** The four frame buttons, each at its home position nudged clear of the cross's rectangle. */
  function FramePositions(client: Rect, bounds: Rect, w: int): (ps: seq<Point>)
    requires w > 0
    ensures |ps| == 4
  {
    [Nudge(FrameButtonHome(client, w, FrameLeft), FrameLeft, bounds, w),
     Nudge(FrameButtonHome(client, w, FrameTop), FrameTop, bounds, w),
     Nudge(FrameButtonHome(client, w, FrameRight), FrameRight, bounds, w),
     Nudge(FrameButtonHome(client, w, FrameBottom), FrameBottom, bounds, w)]
  }

  /** The five cross buttons, in ButtonOrder. */
  function CrossPositions(c: Cross): (ps: seq<Point>)
    ensures |ps| == 5
  {
    [c.left, c.top, c.right, c.bottom, c.tab]
  }

  /** In the complete layout the tab button covers the centre, and no cross button overlaps any
      other button, frame buttons included. (Frame buttons may overlap each other in a small
      interface rectangle.) */
  lemma CrossStandsClear(center: Point, client: Rect, w: int)
    requires w > 0
    ensures var ps := TargetPositions(center, client, w);
      && ButtonRect(ps[8], w).Contains(center)
      && forall i, j | 0 <= i < 9 && 4 <= j < 9 && i != j :: !ButtonRect(ps[i], w).Intersects(ButtonRect(ps[j], w))
  {
    FrameButtonsMissCross(center, client, w);
    CrossButtonsApart(center, client, w);
    LayoutStandsClear(TargetPositions(center, client, w), CrossAt(center, w).bounds, w);
  }

  /** After nudging, no frame button of the layout meets the cross's rectangle. */
  lemma FrameButtonsMissCross(center: Point, client: Rect, w: int)
    requires w > 0
    ensures forall i :: 0 <= i < 4 ==> !ButtonRect(TargetPositions(center, client, w)[i], w).Intersects(CrossAt(center, w).bounds)
  {
    var c := CrossAt(center, w);
    var fs := FramePositions(client, c.bounds, w);
    forall i | 0 <= i < 4
      ensures !ButtonRect(fs[i], w).Intersects(c.bounds)
    {
      var id := ButtonOrder[i];
      assert fs[i] == Nudge(FrameButtonHome(client, w, id), id, c.bounds, w);
    }
    assert TargetPositions(center, client, w)[..4] == fs;
  }

  /** The five cross buttons of the layout lie inside the cross's rectangle and do not overlap. */
  lemma CrossButtonsApart(center: Point, client: Rect, w: int)
    requires w > 0
    ensures var ps, bounds := TargetPositions(center, client, w), CrossAt(center, w).bounds;
      && (forall j :: 4 <= j < 9 ==> ButtonRect(ps[j], w).Within(bounds))
      && (forall i, j :: 4 <= i < j < 9 ==> !ButtonRect(ps[i], w).Intersects(ButtonRect(ps[j], w)))
  {
    var ps := TargetPositions(center, client, w);
    var cs := CrossPositions(CrossAt(center, w));
    CrossTilesItsBounds(center, w);
    assert forall j :: 4 <= j < 9 ==> ps[j] == cs[j - 4];
  }

  /** Nine positions whose first four buttons miss the rectangle `bounds` and whose last five lie
      inside it without overlapping each other: none of the last five meets any other button. */
  lemma LayoutStandsClear(ps: seq<Point>, bounds: Rect, w: int)
    requires |ps| == 9 && w > 0
    requires forall i :: 0 <= i < 4 ==> !ButtonRect(ps[i], w).Intersects(bounds)
    requires forall j :: 4 <= j < 9 ==> ButtonRect(ps[j], w).Within(bounds)
    requires forall i, j :: 4 <= i < j < 9 ==> !ButtonRect(ps[i], w).Intersects(ButtonRect(ps[j], w))
    ensures forall i, j | 0 <= i < 9 && 4 <= j < 9 && i != j :: !ButtonRect(ps[i], w).Intersects(ButtonRect(ps[j], w))
  {
    forall i, j | 0 <= i < 9 && 4 <= j < 9 && i != j
      ensures !ButtonRect(ps[i], w).Intersects(ButtonRect(ps[j], w))
    {
      if i < 4 {
        if ButtonRect(ps[i], w).Intersects(ButtonRect(ps[j], w)) {
          MeetsPartMeetsWhole(ButtonRect(ps[j], w), bounds, ButtonRect(ps[i], w));
        }
      } else if j < i {
        assert !ButtonRect(ps[j], w).Intersects(ButtonRect(ps[i], w));
      }
    }
  }
}
