/** The two classes of the breadcrumb widget: a Crumb (one clickable
    segment wrapping a child widget, by default a text label) and Crumbs
    (the container that lays its crumbs out in a row, paints them as one
    rounded bar, tracks the hovered and the active crumb, and raises
    Changed when the active crumb is set). They live in one module
    because each refers to the other. */
module Manico {
  import opened Collections
  import opened Geometry
  import opened Layout

  /** The child widget a crumb shows: a text label (its plain text) or
      some other widget, told apart only by its kind. */
  datatype Widget = TextLabel(text: string) | Other(kind: string)

  /** Whether an operation completed or threw ArgumentOutOfRangeException
      or KeyNotFoundException (in which case nothing changed). */
  datatype Status = Ok | ArgumentOutOfRange | KeyNotFound

  /** Gdk.CrossingMode */
  datatype CrossingMode = Normal | Grab | Ungrab | GtkGrab | GtkUngrab | StateChanged

  /** The child widgets of the crumbs, in list order. */
  function WidgetsOf(cs: seq<Crumb>): (ws: seq<Widget>)
    reads cs
    ensures |ws| == |cs|
    ensures forall i :: 0 <= i < |cs| ==> ws[i] == cs[i].widget
  {
    if |cs| == 0 then [] else WidgetsOf(cs[..|cs| - 1]) + [cs[|cs| - 1].widget]
  }

  /** The toolkit's size request of each widget. */
  function Measured(measure: Widget -> Size, ws: seq<Widget>): (sizes: seq<Size>)
    ensures |sizes| == |ws|
  {
    seq(|ws|, i requires 0 <= i < |ws| => measure(ws[i]))
  }

  class Crumb {
    var widget: Widget
    var container: Crumbs?
    /** Handlers subscribed to Clicked, and how often it was raised. */
    var clickedHandlers: nat
    var clickedRaised: nat

    /** The plain text of the child if it is a label, else the empty string. */
    function Label(): string
      reads this
    {
      if widget.TextLabel? then widget.text else ""
    }

    /** A crumb over a new, empty label, in no container. */
    constructor ()
      ensures widget == TextLabel("") && Label() == ""
      ensures container == null && clickedHandlers == 0 && clickedRaised == 0
    {
      widget := TextLabel("");
      container := null;
      clickedHandlers := 0;
      clickedRaised := 0;
    }

    /** A crumb whose label is given as Pango markup; plainText is what
        the label makes of the markup. */
    constructor FromMarkup(markup: string, plainText: string -> string)
      ensures widget == TextLabel(plainText(markup)) && Label() == plainText(markup)
      ensures container == null && clickedHandlers == 0 && clickedRaised == 0
    {
      widget := TextLabel(plainText(markup));
      container := null;
      clickedHandlers := 0;
      clickedRaised := 0;
    }

    method SetCrumbs(c: Crumbs?)
      modifies this`container
      ensures container == c
    {
      container := c;
    }

    /** Replacing the child asks the container, if any, for a new layout;
        the label is the new child's text, or empty if it is no label. */
    method SetWidget(w: Widget)
      modifies this`widget, container
      ensures widget == w && Label() == if w.TextLabel? then w.text else ""
      ensures container != null ==>
        container.resizesQueued == old(container.resizesQueued) + 1 && container.SameBesidesResizes()
    {
      widget := w;
      if container != null {
        container.QueueResize();
      }
    }

    /** Clicked += handler */
    method SubscribeClicked()
      modifies this`clickedHandlers
      ensures clickedHandlers == old(clickedHandlers) + 1
    {
      clickedHandlers := clickedHandlers + 1;
    }

    /** Raises Clicked when it has a handler; nothing happens otherwise. */
    method EmitClicked()
      modifies this`clickedRaised
      ensures clickedRaised == old(clickedRaised) + if clickedHandlers > 0 then 1 else 0
    {
      if clickedHandlers > 0 {
        clickedRaised := clickedRaised + 1;
      }
    }
  }

  class Crumbs {
    /** The crumbs in display order (may hold the same crumb twice). */
    var crumbs: seq<Crumb>
    /** The rectangle allocated to each crumb by the last layout pass. */
    var coords: map<Crumb, Rect>
    /** The child size each crumb requested in the last size request. */
    var requests: map<Crumb, Rect>
    var active: Crumb?
    var hover: Crumb?
    var spacing: int
    var xoffset: int
    var yoffset: int
    var radius: int
    var realized: bool
    /** Handlers subscribed to Changed, and how often it was raised. */
    var changedHandlers: nat
    var changedRaised: nat
    /** Redraws and new layouts asked of the toolkit so far. */
    var drawsQueued: nat
    var resizesQueued: nat

    /** Nothing but the count of queued layouts differs from before. */
    twostate predicate SameBesidesResizes()
      reads this
    {
      unchanged(this`crumbs, this`coords, this`requests, this`active, this`hover)
      && unchanged(this`spacing, this`xoffset, this`yoffset, this`radius, this`realized)
      && unchanged(this`changedHandlers, this`changedRaised, this`drawsQueued)
    }

    /** Once realized, every listed crumb points back at this container. */
    predicate Attached()
      reads this, crumbs
    {
      realized ==> forall c :: c in crumbs ==> c.container == this
    }

    /** An empty trail with the default metrics: spacing 6, x offset 9,
        y offset 6, corner radius 5. */
    constructor ()
      ensures crumbs == [] && coords == map[] && requests == map[]
      ensures active == null && hover == null
      ensures spacing == 6 && xoffset == 9 && yoffset == 6 && radius == 5
      ensures !realized && Attached()
      ensures changedHandlers == 0 && changedRaised == 0 && drawsQueued == 0 && resizesQueued == 0
    {
      crumbs := [];
      coords := map[];
      requests := map[];
      active := null;
      hover := null;
      spacing := 6;
      xoffset := 9;
      yoffset := 6;
      radius := 5;
      realized := false;
      changedHandlers := 0;
      changedRaised := 0;
      drawsQueued := 0;
      resizesQueued := 0;
    }

    /** Gtk.Widget.QueueResize */
    method QueueResize()
      modifies this`resizesQueued
      ensures resizesQueued == old(resizesQueued) + 1
    {
      resizesQueued := resizesQueued + 1;
    }

    /** Gtk.Widget.QueueDraw */
    method QueueDraw()
      modifies this`drawsQueued
      ensures drawsQueued == old(drawsQueued) + 1
    {
      drawsQueued := drawsQueued + 1;
    }

    /** Changed += handler */
    method SubscribeChanged()
      modifies this`changedHandlers
      ensures changedHandlers == old(changedHandlers) + 1
    {
      changedHandlers := changedHandlers + 1;
    }

    /** The Active setter: stores the crumb, always queues a redraw and
        raises Changed when it has a handler, also when the crumb was
        already the active one. */
    method SetActive(c: Crumb?)
      modifies this`active, this`drawsQueued, this`changedRaised
      ensures active == c
      ensures drawsQueued == old(drawsQueued) + 1
      ensures changedRaised == old(changedRaised) + if changedHandlers > 0 then 1 else 0
    {
      active := c;
      QueueDraw();
      if changedHandlers > 0 {
        changedRaised := changedRaised + 1;
      }
    }

    method SetRadius(value: int)
      modifies this`radius, this`resizesQueued
      ensures radius == value && resizesQueued == old(resizesQueued) + 1
    {
      radius := value;
      QueueResize();
    }

    method SetSpacing(value: int)
      modifies this`spacing, this`resizesQueued
      ensures spacing == value && resizesQueued == old(resizesQueued) + 1
    {
      spacing := value;
      QueueResize();
    }

    method SetXoffset(value: int)
      modifies this`xoffset, this`resizesQueued
      ensures xoffset == value && resizesQueued == old(resizesQueued) + 1
    {
      xoffset := value;
      QueueResize();
    }

    method SetYoffset(value: int)
      modifies this`yoffset, this`resizesQueued
      ensures yoffset == value && resizesQueued == old(resizesQueued) + 1
    {
      yoffset := value;
      QueueResize();
    }

    /** Points the crumb back at this container (the child widget's
        parenting and realization are toolkit calls). */
    method PrepareCrumb(crumb: Crumb)
      modifies crumb`container
      ensures crumb.container == this
    {
      crumb.SetCrumbs(this);
    }

    /** Detaches the crumb from any container. */
    method UnprepareCrumb(crumb: Crumb)
      modifies crumb`container
      ensures crumb.container == null
    {
      crumb.SetCrumbs(null);
    }

    /** Adds the crumb at the end, attaches it if the container is already
        realized, and asks for a new layout. */
    method Append(crumb: Crumb)
      modifies this`crumbs, this`resizesQueued, crumb`container
      ensures crumbs == old(crumbs) + [crumb]
      ensures crumb.container == if realized then this else old(crumb.container)
      ensures resizesQueued == old(resizesQueued) + 1
      ensures old(Attached()) ==> Attached()
    {
      crumbs := crumbs + [crumb];
      if realized {
        PrepareCrumb(crumb);
      }
      QueueResize();
    }

    /** List.Insert: an index outside 0 .. |crumbs| throws and changes
        nothing; otherwise as Append, at the given index. */
    method Insert(index: int, crumb: Crumb) returns (status: Status)
      modifies this`crumbs, this`resizesQueued, crumb`container
      ensures status == if 0 <= index <= |old(crumbs)| then Ok else ArgumentOutOfRange
      ensures status == ArgumentOutOfRange ==>
        crumbs == old(crumbs) && crumb.container == old(crumb.container) && resizesQueued == old(resizesQueued)
      ensures status == Ok ==>
        0 <= index <= |old(crumbs)| && crumbs == InsertAt(old(crumbs), index, crumb)
        && crumb.container == (if realized then this else old(crumb.container))
        && resizesQueued == old(resizesQueued) + 1
      ensures old(Attached()) ==> Attached()
    {
      if index < 0 || index > |crumbs| {
        return ArgumentOutOfRange;
      }
      crumbs := InsertAt(crumbs, index, crumb);
      if realized {
        PrepareCrumb(crumb);
      }
      QueueResize();
      status := Ok;
    }

    /** List.Remove drops the first occurrence, if any; the crumb is then
        detached whether or not it was listed. Its cached rectangles, the
        hover and the active crumb are left as they are, and no new layout
        is asked for. A second occurrence stays listed, but detached. */
    method Remove(crumb: Crumb)
      modifies this`crumbs, crumb`container
      ensures crumbs == RemoveFirst(old(crumbs), crumb)
      ensures crumb.container == null
      ensures old(Attached()) && crumb !in crumbs ==> Attached()
    {
      crumbs := RemoveFirst(crumbs, crumb);
      UnprepareCrumb(crumb);
      RemoveFirstSubset(old(crumbs), crumb);
    }

    /** Marks the container realized and attaches every listed crumb. */
    method OnRealized()
      modifies this`realized, crumbs
      ensures realized && Attached()
      ensures forall c :: c in crumbs ==>
        c.widget == old(c.widget) && c.clickedHandlers == old(c.clickedHandlers) && c.clickedRaised == old(c.clickedRaised)
    {
      realized := true;
      var i := 0;
      while i < |crumbs|
        invariant 0 <= i <= |crumbs|
        invariant realized
        invariant forall j :: 0 <= j < i ==> crumbs[j].container == this
        invariant forall c :: c in crumbs ==>
          c.widget == old(c.widget) && c.clickedHandlers == old(c.clickedHandlers) && c.clickedRaised == old(c.clickedRaised)
      {
        PrepareCrumb(crumbs[i]);
        i := i + 1;
      }
      forall c | c in crumbs
        ensures c.container == this
      {
        var j :| 0 <= j < |crumbs| && crumbs[j] == c;
      }
    }

    /** The size request: -1 by -1 for no crumbs; otherwise the fold over
        the children's requests, each of which is also cached in requests. */
    method OnSizeRequested(measure: Widget -> Size) returns (req: Size)
      modifies this`requests
      ensures var sizes := Measured(measure, WidgetsOf(crumbs));
        req == SizeRequest(sizes, spacing, xoffset, yoffset)
        && requests == Assign(old(requests), crumbs, RequestRects(sizes))
    {
      ghost var sizes := Measured(measure, WidgetsOf(crumbs));
      ghost var rects := RequestRects(sizes);
      assert |sizes| == |crumbs|;
      if |crumbs| == 0 {
        return Size(-1, -1);
      }
      var childrenWidth := 0;
      var childrenHeight := 0;
      var i := 0;
      while i < |crumbs|
        invariant 0 <= i <= |crumbs|
        invariant childrenWidth == Sum(Widths(sizes[..i]))
        invariant childrenHeight == Tallest(Heights(sizes[..i]))
        invariant requests == Assign(old(requests), crumbs[..i], rects[..i])
      {
        var childReq := measure(crumbs[i].widget);
        assert childReq == sizes[i];
        FoldStep(sizes, i);
        AssignStep(old(requests), crumbs, rects, i);
        childrenWidth := childrenWidth + childReq.w;
        childrenHeight := Max(childrenHeight, childReq.h);
        requests := requests[crumbs[i] := Rect(0, 0, childReq.w, childReq.h)];
        i := i + 1;
      }
      assert sizes[..i] == sizes && crumbs[..i] == crumbs && rects[..i] == rects;
      var childrenSpacing := (|crumbs| + 1) * spacing;
      childrenSpacing := childrenSpacing + (|crumbs| - 1) * 2;
      assert childrenSpacing == Spacings(|sizes|, spacing);
      var w := childrenWidth + childrenSpacing + xoffset * 2;
      var h := childrenHeight + yoffset * 2;
      w := w + GrowthMargin;
      req := Size(Max(w, MinWidth), Max(h, MinHeight));
    }

    /** The layout pass: each crumb gets its requested width at the running
        x, the y offset as y, and the allocated height less twice the y
        offset; x then moves on by the width plus 2 * spacing + 2. Every
        listed crumb needs a cached request. */
    method OnSizeAllocated(alloc: Rect)
      requires forall c :: c in crumbs ==> c in requests
      modifies this`coords
      ensures coords == Assign(old(coords), crumbs,
        Cells(RectWidths(Lookup(requests, crumbs)), spacing, xoffset, yoffset, alloc.h))
    {
      ghost var ws := RectWidths(Lookup(requests, crumbs));
      ghost var cells := Cells(ws, spacing, xoffset, yoffset, alloc.h);
      var x := xoffset;
      var y := yoffset;
      var i := 0;
      while i < |crumbs|
        invariant 0 <= i <= |crumbs|
        invariant x == OriginX(ws[..i], spacing, xoffset)
        invariant coords == Assign(old(coords), crumbs[..i], cells[..i])
      {
        var crumbAlloc := Rect(x, y, requests[crumbs[i]].w, alloc.h - y * 2);
        assert ws[..i + 1][..i] == ws[..i];
        assert crumbAlloc == cells[i];
        AssignStep(old(coords), crumbs, cells, i);
        coords := coords[crumbs[i] := crumbAlloc];
        x := x + crumbAlloc.w + 2 * spacing + 2;
        i := i + 1;
      }
      assert crumbs[..i] == crumbs && cells[..i] == cells;
    }

    /** Mouse motion: the first crumb whose rectangle holds the mouse position
        becomes the hover crumb (a redraw is queued only if it changed) and
        the event is handled; when none does, the hover is cleared, a redraw
        is queued and the event is not handled here. Reaching a crumb with
        no cached rectangle before any hit throws KeyNotFoundException with
        nothing changed: a crumb appended or inserted since the last layout
        pass has none. */
    method OnMotionNotify(px: real, py: real) returns (status: Status, handled: bool)
      modifies this`hover, this`drawsQueued
      ensures var scan := FirstHit(coords, crumbs, px, py);
        (scan.MissingKey? ==>
           status == KeyNotFound && !handled
           && hover == old(hover) && drawsQueued == old(drawsQueued))
        && (scan.Hit? ==>
              status == Ok && handled && hover == crumbs[scan.index]
              && drawsQueued == old(drawsQueued) + if old(hover) == crumbs[scan.index] then 0 else 1)
        && (scan.Miss? ==>
              status == Ok && !handled && hover == null && drawsQueued == old(drawsQueued) + 1)
    {
      var i := 0;
      while i < |crumbs|
        invariant 0 <= i <= |crumbs|
        invariant forall j :: 0 <= j < i ==> crumbs[j] in coords && !Contains(coords[crumbs[j]], px, py)
      {
        if crumbs[i] !in coords {
          return KeyNotFound, false;
        }
        var area := coords[crumbs[i]];
        if px >= area.x as real && px <= (area.x + area.w) as real
           && py >= area.y as real && py <= (area.y + area.h) as real
        {
          if crumbs[i] != hover {
            hover := crumbs[i];
            QueueDraw();
          }
          return Ok, true;
        }
        i := i + 1;
      }
      hover := null;
      QueueDraw();
      status, handled := Ok, false;
    }

    /** Leaving the window clears the hover, but only for a normal crossing
        (not one caused by a grab). */
    method OnLeaveNotify(mode: CrossingMode)
      modifies this`hover, this`drawsQueued
      ensures mode == Normal ==> hover == null && drawsQueued == old(drawsQueued) + 1
      ensures mode != Normal ==> hover == old(hover) && drawsQueued == old(drawsQueued)
    {
      if mode == Normal {
        hover := null;
        QueueDraw();
      }
    }

    /** Releasing the button makes the hover crumb, if any, the active one. */
    method OnButtonRelease()
      modifies this`active, this`drawsQueued, this`changedRaised
      ensures old(hover) != null ==>
        active == old(hover) && drawsQueued == old(drawsQueued) + 1
        && changedRaised == old(changedRaised) + if changedHandlers > 0 then 1 else 0
      ensures old(hover) == null ==>
        active == old(active) && drawsQueued == old(drawsQueued) && changedRaised == old(changedRaised)
    {
      if hover != null {
        SetActive(hover);
      }
    }

    /** Scrolling moves the active crumb one place along the list, as
        Layout.Scroll says, through the Active setter; scrolling up or left
        with no listed active crumb throws and changes nothing. */
    method OnScroll(direction: ScrollDirection) returns (status: Status)
      modifies this`active, this`drawsQueued, this`changedRaised
      ensures var step := Scroll(IndexOf(crumbs, old(active)), |crumbs|, direction);
        status == (if step.IndexOutOfRange? then ArgumentOutOfRange else Ok)
        && (step.Select? ==>
              active == crumbs[step.index] && drawsQueued == old(drawsQueued) + 1
              && changedRaised == old(changedRaised) + if changedHandlers > 0 then 1 else 0)
        && (!step.Select? ==>
              active == old(active) && drawsQueued == old(drawsQueued) && changedRaised == old(changedRaised))
    {
      var activeIndex := IndexOf(crumbs, active);
      status := Ok;
      match direction
      case Up | Left =>
        if activeIndex != 0 {
          if activeIndex - 1 < 0 {
            return ArgumentOutOfRange;
          }
          SetActive(crumbs[activeIndex - 1]);
        }
      case Down | Right =>
        if activeIndex != |crumbs| - 1 {
          SetActive(crumbs[activeIndex + 1]);
        }
    }

    /** What one expose pass paints, crumb by crumb: the padded area, the
        corner mask of the crumb's position, the highlight for the hover and
        the active crumb, and a separator after every crumb but the last.
        Every listed crumb needs a cached rectangle. */
    method OnExpose() returns (plan: seq<SegmentPaint>)
      requires forall c :: c in crumbs ==> c in coords
      ensures |plan| == |crumbs|
      ensures forall i {:trigger plan[i]} :: 0 <= i < |crumbs| ==>
        plan[i] == PaintSegment(coords[crumbs[i]], i, |crumbs|, crumbs[i] == hover, crumbs[i] == active, radius)
    {
      plan := [];
      var i := 0;
      while i < |crumbs|
        invariant 0 <= i <= |crumbs|
        invariant |plan| == i
        invariant forall j {:trigger plan[j]} :: 0 <= j < i ==>
          plan[j] == PaintSegment(coords[crumbs[j]], j, |crumbs|, crumbs[j] == hover, crumbs[j] == active, radius)
      {
        var crumb := crumbs[i];
        var area := coords[crumb];
        ghost var cell := area;
        area := Rect(area.x - 6, area.y - 4, area.w + 12, area.h + 8);
        assert area == Padded(cell);
        var corners: Corners;
        if i == 0 {
          corners := TopLeft | BottomLeft;
        } else if i + 1 == |crumbs| {
          corners := TopRight | BottomRight;
        } else {
          corners := NoCorners;
        }
        assert corners == CornersFor(i, |crumbs|);
        var isHover := crumb == hover;
        var isActive := crumb == active;
        var fill := Plain;
        var border: seq<PathCmd> := [];
        var innerLine: seq<PathCmd> := [];
        if isHover || isActive {
          border := RoundedRectangle(area, radius, corners);
          fill := if isActive then Selected else Prelight;
          area := Rect(area.x + 1, area.y + 1, area.w - 2, area.h - 2);
          assert area == Inset(Padded(cell));
          innerLine := RoundedRectangle(area, radius, corners);
        }
        var separator: seq<PathCmd> := [];
        if i + 1 != |crumbs| {
          separator := SeparatorLines(area);
        }
        assert SegmentPaint(corners, fill, border, innerLine, separator)
          == PaintSegment(cell, i, |crumbs|, isHover, isActive, radius);
        plan := plan + [SegmentPaint(corners, fill, border, innerLine, separator)];
        i := i + 1;
      }
    }
  }

  /** A size request followed by a layout pass gives each crumb exactly
      the width its own child requested. A crumb listed twice measures the
      same widget both times, so its cached request is the same either
      way. */
  lemma RequestThenAllocate(old_requests: map<Crumb, Rect>, cs: seq<Crumb>, measure: Widget -> Size)
    ensures var sizes := Measured(measure, WidgetsOf(cs));
      var requests := Assign(old_requests, cs, RequestRects(sizes));
      (forall c :: c in cs ==> c in requests)
      && RectWidths(Lookup(requests, cs)) == Widths(sizes)
  {
    var sizes := Measured(measure, WidgetsOf(cs));
    var rects := RequestRects(sizes);
    assert SameValuePerKey(cs, rects);
    LookupAssign(old_requests, cs, rects);
  }
}
