/** The arithmetic and the decisions of the Crumbs container, as values:
    the size request folded from the children's requests, the rectangle
    each crumb is allocated, hit-testing a mouse position against those
    rectangles, the scroll step over the list, and what is painted for
    each segment. The class Manico.Crumbs computes each of these with
    the source's own loops and is proved to agree with them. */
module Layout {
  import opened Collections
  import opened Geometry

  /** A Gtk.Requisition: a requested width and height. */
  datatype Size = Size(w: int, h: int)

  /** The "growth around the widget" added to the requested width. */
  const GrowthMargin: int := 6
  const MinWidth: int := 16
  const MinHeight: int := 16

  /** Math.Max */
  function Max(a: int, b: int): int {
    if a >= b then a else b
  }

  function Sum(xs: seq<int>): int {
    if |xs| == 0 then 0 else Sum(xs[..|xs| - 1]) + xs[|xs| - 1]
  }

  lemma {:induction false} SumOfConstant(n: nat, c: int)
    ensures Sum(seq(n, i => c)) == n * c
  {
    if n > 0 {
      assert seq(n, i => c)[..n - 1] == seq(n - 1, i => c);
      SumOfConstant(n - 1, c);
    }
  }

  /** The running maximum the source keeps, starting from 0. */
  function Tallest(hs: seq<int>): int {
    if |hs| == 0 then 0 else Max(Tallest(hs[..|hs| - 1]), hs[|hs| - 1])
  }

  function Widths(sizes: seq<Size>): (ws: seq<int>)
    ensures |ws| == |sizes|
  {
    seq(|sizes|, i requires 0 <= i < |sizes| => sizes[i].w)
  }

  function Heights(sizes: seq<Size>): (hs: seq<int>)
    ensures |hs| == |sizes|
  {
    seq(|sizes|, i requires 0 <= i < |sizes| => sizes[i].h)
  }

  /** The entries the size request records in m_Requests. */
  function RequestRects(sizes: seq<Size>): (rs: seq<Rect>)
    ensures |rs| == |sizes|
  {
    seq(|sizes|, i requires 0 <= i < |sizes| => Rect(0, 0, sizes[i].w, sizes[i].h))
  }

  /** The widths the layout pass reads back from the request cache. The
      cache holds Gdk.Rectangle values (RequestRects), not sizes, so this
      reads `.w` off rectangles where Widths reads it off sizes. */
  function RectWidths(rects: seq<Rect>): (ws: seq<int>)
    ensures |ws| == |rects|
  {
    seq(|rects|, i requires 0 <= i < |rects| => rects[i].w)
  }

  /** The requested width before the minimum is applied: the children,
      (N + 1) spacings, 2 pixels for each of the N - 1 separators, the
      x offset on both sides and the growth margin. */
  function RequestWidth(sizes: seq<Size>, spacing: int, xoffset: int): int {
    Sum(Widths(sizes)) + Spacings(|sizes|, spacing) + xoffset * 2 + GrowthMargin
  }

  /** The room budgeted around and between n crumbs: n + 1 spacings and
      2 pixels for each of the n - 1 separators. */
  function Spacings(n: int, spacing: int): int {
    (n + 1) * spacing + (n - 1) * 2
  }

  /** Crumbs.OnSizeRequested: -1 by -1 for an empty trail, otherwise the
      folded children's request clamped below by the minimum size. */
  function SizeRequest(sizes: seq<Size>, spacing: int, xoffset: int, yoffset: int): (r: Size)
    ensures |sizes| == 0 ==> r == Size(-1, -1)
    ensures |sizes| > 0 ==> r.w >= MinWidth && r.h >= MinHeight
  {
    if |sizes| == 0 then Size(-1, -1)
    else Size(Max(RequestWidth(sizes, spacing, xoffset), MinWidth),
              Max(Tallest(Heights(sizes)) + yoffset * 2, MinHeight))
  }

  /** The running maximum is at least every height and at least 0, and it
      is one of the heights unless it is the starting 0. */
  lemma {:induction false} TallestIsMaximum(hs: seq<int>)
    ensures Tallest(hs) >= 0
    ensures forall i :: 0 <= i < |hs| ==> hs[i] <= Tallest(hs)
    ensures Tallest(hs) == 0 || exists i :: 0 <= i < |hs| && hs[i] == Tallest(hs)
  {
    if |hs| > 0 {
      var n := |hs| - 1;
      TallestIsMaximum(hs[..n]);
      assert forall i :: 0 <= i < n ==> hs[..n][i] == hs[i];
    }
  }

  /** The requested height leaves yoffset above and below the tallest
      child, and never goes under the minimum. */
  lemma RequestHeightCoversChildren(sizes: seq<Size>, spacing: int, xoffset: int, yoffset: int)
    requires |sizes| > 0
    ensures forall i :: 0 <= i < |sizes| ==>
      sizes[i].h + 2 * yoffset <= SizeRequest(sizes, spacing, xoffset, yoffset).h
  {
    TallestIsMaximum(Heights(sizes));
    assert forall i :: 0 <= i < |sizes| ==> Heights(sizes)[i] == sizes[i].h;
  }

  /** The four-crumb trail with requested widths 24, 96, 112 and 72 at the
      default spacing 6 and x offset 9 requests 364 pixels: 304 for the
      children, 30 of spacing, 6 for separators, 18 of offset and the
      6-pixel growth margin. */
  lemma FourCrumbRequest()
    ensures SizeRequest([Size(24, 17), Size(96, 17), Size(112, 17), Size(72, 17)], 6, 9, 6) == Size(364, 29)
  {
    var sizes := [Size(24, 17), Size(96, 17), Size(112, 17), Size(72, 17)];
    FoldStep(sizes, 0);
    FoldStep(sizes, 1);
    FoldStep(sizes, 2);
    FoldStep(sizes, 3);
    assert sizes[..4] == sizes;
  }

  /** One more child in the fold: its width is added, its height is taken
      into the maximum, and its request rectangle is appended. */
  lemma FoldStep(sizes: seq<Size>, i: nat)
    requires i < |sizes|
    ensures Sum(Widths(sizes[..i + 1])) == Sum(Widths(sizes[..i])) + sizes[i].w
    ensures Tallest(Heights(sizes[..i + 1])) == Max(Tallest(Heights(sizes[..i])), sizes[i].h)
    ensures RequestRects(sizes)[..i + 1] == RequestRects(sizes)[..i] + [Rect(0, 0, sizes[i].w, sizes[i].h)]
  {
    assert Widths(sizes[..i + 1])[..i] == Widths(sizes[..i]);
    assert Heights(sizes[..i + 1])[..i] == Heights(sizes[..i]);
  }

  /* Allocation: the walk over the list with an x accumulator. */

  /** How far x moves past a crumb of width w. */
  function Advance(w: int, spacing: int): int {
    w + 2 * spacing + 2
  }

  /** The x accumulator after walking past crumbs of widths ws. */
  function OriginX(ws: seq<int>, spacing: int, xoffset: int): int {
    if |ws| == 0 then xoffset
    else OriginX(ws[..|ws| - 1], spacing, xoffset) + Advance(ws[|ws| - 1], spacing)
  }

  /** The rectangle cached for each crumb by OnSizeAllocated, given the
      requested widths in list order and the allocated height. */
  function Cells(ws: seq<int>, spacing: int, xoffset: int, yoffset: int, height: int): (cells: seq<Rect>)
    ensures |cells| == |ws|
  {
    seq(|ws|, i requires 0 <= i < |ws| =>
      Rect(OriginX(ws[..i], spacing, xoffset), yoffset, ws[i], height - 2 * yoffset))
  }

  /** Crumb i starts at x offset plus the widths before it plus one
      2 * spacing + 2 gap per crumb before it. */
  lemma {:induction false} OriginXClosedForm(ws: seq<int>, spacing: int, xoffset: int)
    ensures OriginX(ws, spacing, xoffset) == xoffset + Sum(ws) + |ws| * (2 * spacing + 2)
  {
    if |ws| > 0 {
      var n := |ws| - 1;
      OriginXClosedForm(ws[..n], spacing, xoffset);
      assert n * (2 * spacing + 2) + (2 * spacing + 2) == (n + 1) * (2 * spacing + 2);
    }
  }

  /** Consecutive cells are exactly one width plus 2 * spacing + 2 apart. */
  lemma CellsStep(ws: seq<int>, spacing: int, xoffset: int, yoffset: int, height: int, i: nat)
    requires i + 1 < |ws|
    ensures var cells := Cells(ws, spacing, xoffset, yoffset, height);
      cells[i + 1].x == cells[i].x + cells[i].w + 2 * spacing + 2
  {
    assert ws[..i + 1][..i] == ws[..i];
  }

  /** With non-negative widths and spacing, every cell ends strictly
      before any later cell starts, so the origins strictly increase. */
  lemma {:induction false} CellsSeparated(ws: seq<int>, spacing: int, xoffset: int, yoffset: int, height: int, i: nat, j: nat)
    requires forall k :: 0 <= k < |ws| ==> ws[k] >= 0
    requires spacing >= 0
    requires i < j < |ws|
    ensures var cells := Cells(ws, spacing, xoffset, yoffset, height);
      cells[i].x + cells[i].w < cells[j].x && cells[i].x < cells[j].x
  {
    var cells := Cells(ws, spacing, xoffset, yoffset, height);
    CellsStep(ws, spacing, xoffset, yoffset, height, j - 1);
    if i < j - 1 {
      CellsSeparated(ws, spacing, xoffset, yoffset, height, i, j - 1);
    }
  }

  /** The right edge of the last cell against the requested width: the
      request leaves (3 - N) * spacing + xoffset + 6 pixels after it. At
      the default spacing 6 and x offset 9 that margin is 9 for four
      crumbs and negative from six crumbs on. */
  lemma RequestMarginAfterLastCell(sizes: seq<Size>, spacing: int, xoffset: int, yoffset: int, height: int)
    requires |sizes| > 0
    ensures var n := |sizes|;
      var last := Cells(Widths(sizes), spacing, xoffset, yoffset, height)[n - 1];
      RequestWidth(sizes, spacing, xoffset) - (last.x + last.w) == (3 - n) * spacing + xoffset + GrowthMargin
  {
    var ws := Widths(sizes);
    var n := |sizes|;
    OriginXClosedForm(ws[..n - 1], spacing, xoffset);
    assert ws == ws[..n - 1] + [ws[n - 1]];
    assert Sum(ws) == Sum(ws[..n - 1]) + ws[n - 1];
    assert (n + 1) * spacing - (n - 1) * (2 * spacing) == (3 - n) * spacing;
  }

  /** Six crumbs 10 pixels wide at the defaults: the request is 136
      pixels wide, while the last cached rectangle reaches x = 139. */
  lemma SixCrumbsOutgrowRequest()
    ensures var sizes := seq(6, i => Size(10, 10));
      var last := Cells(Widths(sizes), 6, 9, 6, 40)[5];
      SizeRequest(sizes, 6, 9, 6).w == 136 && last.x + last.w == 139
  {
    var sizes := seq(6, i => Size(10, 10));
    RequestMarginAfterLastCell(sizes, 6, 9, 6, 40);
    assert Widths(sizes) == seq(6, i => 10);
    SumOfConstant(6, 10);
  }

  /* Hit testing. */

  /** The motion handler's test: the point lies in the rectangle, all
      four edges included. */
  predicate Contains(r: Rect, px: real, py: real) {
    px >= r.x as real && px <= (r.x + r.w) as real
    && py >= r.y as real && py <= (r.y + r.h) as real
  }

  /** The first rectangle in list order that contains the point. */
  function HitIndex(rects: seq<Rect>, px: real, py: real): (r: Option<nat>)
    ensures r.None? <==> forall i :: 0 <= i < |rects| ==> !Contains(rects[i], px, py)
    ensures r.Some? ==> r.value < |rects| && Contains(rects[r.value], px, py)
    ensures r.Some? ==> forall j :: 0 <= j < r.value ==> !Contains(rects[j], px, py)
  {
    if |rects| == 0 then None
    else if Contains(rects[0], px, py) then Some(0)
    else match HitIndex(rects[1..], px, py)
      case None => None
      case Some(k) => Some(k + 1)
  }

  /** How the motion handler's scan over the cached rectangles ends: at
      the first key whose rectangle holds the point, with no key holding
      it, or at a key with no cached rectangle, where the dictionary read
      throws KeyNotFoundException. */
  datatype Scan = Hit(index: nat) | Miss | MissingKey(index: nat)

  /** The scan as the handler runs it: each key is looked up in turn and
      tested before the next one is read. */
  function FirstHit<K(==)>(coords: map<K, Rect>, ks: seq<K>, px: real, py: real): (r: Scan)
    ensures r.Hit? ==>
      r.index < |ks| && ks[r.index] in coords && Contains(coords[ks[r.index]], px, py)
      && forall j :: 0 <= j < r.index ==> ks[j] in coords && !Contains(coords[ks[j]], px, py)
    ensures r.MissingKey? ==>
      r.index < |ks| && ks[r.index] !in coords
      && forall j :: 0 <= j < r.index ==> ks[j] in coords && !Contains(coords[ks[j]], px, py)
    ensures r.Miss? <==> forall j :: 0 <= j < |ks| ==> ks[j] in coords && !Contains(coords[ks[j]], px, py)
  {
    if |ks| == 0 then Miss
    else if ks[0] !in coords then MissingKey(0)
    else if Contains(coords[ks[0]], px, py) then Hit(0)
    else match FirstHit(coords, ks[1..], px, py)
      case Miss => Miss
      case Hit(k) => Hit(k + 1)
      case MissingKey(k) => MissingKey(k + 1)
  }

  /** With every key cached the scan never throws, and it finds what
      HitIndex finds on the looked-up rectangles. */
  lemma {:induction false} FirstHitWhenCached<K>(coords: map<K, Rect>, ks: seq<K>, px: real, py: real)
    requires forall k :: k in ks ==> k in coords
    ensures var hit := HitIndex(Lookup(coords, ks), px, py);
      FirstHit(coords, ks, px, py) == if hit.Some? then Hit(hit.value) else Miss
  {
    if |ks| > 0 {
      var rects := Lookup(coords, ks);
      assert rects[0] == coords[ks[0]];
      if !Contains(coords[ks[0]], px, py) {
        assert ks[0] in ks;
        assert rects[1..] == Lookup(coords, ks[1..]);
        FirstHitWhenCached(coords, ks[1..], px, py);
      }
    }
  }

  /** After a layout pass with non-negative widths and spacing, a point
      inside crumb i's rectangle hits crumb i and no other. */
  lemma HitAfterLayout(ws: seq<int>, spacing: int, xoffset: int, yoffset: int, height: int,
                       i: nat, px: real, py: real)
    requires forall k :: 0 <= k < |ws| ==> ws[k] >= 0
    requires spacing >= 0
    requires i < |ws|
    requires Contains(Cells(ws, spacing, xoffset, yoffset, height)[i], px, py)
    ensures HitIndex(Cells(ws, spacing, xoffset, yoffset, height), px, py) == Some(i)
    ensures forall j :: 0 <= j < |ws| && j != i ==>
      !Contains(Cells(ws, spacing, xoffset, yoffset, height)[j], px, py)
  {
    var cells := Cells(ws, spacing, xoffset, yoffset, height);
    forall j | 0 <= j < |ws| && j != i
      ensures !Contains(cells[j], px, py)
    {
      if j < i {
        CellsSeparated(ws, spacing, xoffset, yoffset, height, j, i);
      } else {
        CellsSeparated(ws, spacing, xoffset, yoffset, height, i, j);
      }
    }
  }

  /* Scrolling. */

  /** Gdk.ScrollDirection */
  datatype ScrollDirection = Up | Down | Left | Right

  /** What a scroll event does to the active crumb, given its index in the
      list (-1 when there is none): nothing, select the crumb at an index,
      or index the list at -2, which throws ArgumentOutOfRange. */
  datatype ScrollStep = Stay | Select(index: nat) | IndexOutOfRange

  function Scroll(activeIndex: int, count: nat, direction: ScrollDirection): (step: ScrollStep)
    requires -1 <= activeIndex < count
    ensures step.Select? ==> step.index < count
    ensures step.IndexOutOfRange? <==> activeIndex == -1 && (direction.Up? || direction.Left?)
  {
    match direction
    case Up | Left =>
      if activeIndex != 0 then
        (if activeIndex - 1 >= 0 then Select(activeIndex - 1) else IndexOutOfRange)
      else Stay
    case Down | Right =>
      if activeIndex != count - 1 then Select(activeIndex + 1) else Stay
  }

  /** Up and left move one index back, down and right one index forward;
      the first and last crumbs are the ends; without an active crumb,
      down and right select the first one. */
  lemma ScrollMovesOneIndex(activeIndex: int, count: nat)
    requires -1 <= activeIndex < count
    ensures 0 < activeIndex ==> Scroll(activeIndex, count, Up) == Scroll(activeIndex, count, Left) == Select(activeIndex - 1)
    ensures activeIndex == 0 ==> Scroll(activeIndex, count, Up) == Scroll(activeIndex, count, Left) == Stay
    ensures activeIndex < count - 1 ==> Scroll(activeIndex, count, Down) == Scroll(activeIndex, count, Right) == Select(activeIndex + 1)
    ensures activeIndex == count - 1 ==> Scroll(activeIndex, count, Down) == Scroll(activeIndex, count, Right) == Stay
  {
  }

  /** Scrolling down and then up comes back to the same crumb, except at
      the last crumb. */
  lemma ScrollDownThenUp(activeIndex: int, count: nat)
    requires 0 <= activeIndex < count - 1
    ensures var step := Scroll(activeIndex, count, Down);
      step.Select? && Scroll(step.index, count, Up) == Select(activeIndex)
  {
  }

  /* Painting decisions of OnExposeEvent. */

  /** Which brush fills a segment. */
  datatype Highlight = Plain | Prelight | Selected

  /** What OnExposeEvent draws for one crumb: its corner mask, the fill,
      the outer border path and the inner highlight path (both empty when
      the crumb is not highlighted), and the two separator strokes (empty
      for the last crumb). */
  datatype SegmentPaint = SegmentPaint(
    corners: Corners,
    fill: Highlight,
    border: seq<PathCmd>,
    innerLine: seq<PathCmd>,
    separator: seq<PathCmd>)

  /** The first crumb rounds its left corners, the last its right ones,
      and the crumbs between round none. */
  function CornersFor(i: nat, count: nat): Corners {
    if i == 0 then TopLeft | BottomLeft
    else if i + 1 == count then TopRight | BottomRight
    else NoCorners
  }

  /** The cached rectangle grown by the painting margin. */
  function Padded(cell: Rect): Rect {
    Rect(cell.x - 6, cell.y - 4, cell.w + 12, cell.h + 8)
  }

  /** The area shrunk by one pixel on every side for the inner line. */
  function Inset(area: Rect): Rect {
    Rect(area.x + 1, area.y + 1, area.w - 2, area.h - 2)
  }

  /** A dark stroke one pixel right of the area and a light stroke half a
      pixel further, both spanning its height. */
  function SeparatorLines(area: Rect): seq<PathCmd> {
    var x := 2 * (area.x + area.w);
    [MoveTo(Point(x + 2, 2 * area.y)), LineTo(Point(x + 2, 2 * (area.y + area.h))),
     MoveTo(Point(x + 3, 2 * area.y)), LineTo(Point(x + 3, 2 * (area.y + area.h)))]
  }

  /** The paint of crumb i of count, with rectangle cell. The separator is
      placed from the area as it stands after the highlight, so a
      highlighted crumb's separator uses the inset area. */
  function PaintSegment(cell: Rect, i: nat, count: nat, isHover: bool, isActive: bool, radius: int): SegmentPaint {
    var area := Padded(cell);
    var corners := CornersFor(i, count);
    var lit := isHover || isActive;
    var lineArea := if lit then Inset(area) else area;
    SegmentPaint(
      corners,
      if isActive then Selected else if isHover then Prelight else Plain,
      if lit then RoundedRectangle(area, radius, corners) else [],
      if lit then RoundedRectangle(Inset(area), radius, corners) else [],
      if i + 1 != count then SeparatorLines(lineArea) else [])
  }

  /** The corner mask of each position: index 0 (also when it is the only
      crumb) rounds exactly its two left corners, the last of two or more
      exactly its two right corners, and every crumb between rounds none.
      A highlighted end crumb's border path has two curves, an interior
      one's none. */
  lemma SegmentCorners(cell: Rect, i: nat, count: nat, isHover: bool, isActive: bool, radius: int)
    requires i < count
    ensures var p := PaintSegment(cell, i, count, isHover, isActive, radius);
      (i == 0 ==> (Rounded(p.corners, TopLeft) && Rounded(p.corners, BottomLeft)
                  && !Rounded(p.corners, TopRight) && !Rounded(p.corners, BottomRight)))
      && (0 < i == count - 1 ==> (Rounded(p.corners, TopRight) && Rounded(p.corners, BottomRight)
                  && !Rounded(p.corners, TopLeft) && !Rounded(p.corners, BottomLeft)))
      && (0 < i < count - 1 ==> p.corners == NoCorners)
      && ((isHover || isActive) ==> CurveCount(p.border) == if i == 0 || i == count - 1 then 2 else 0)
  {
    var p := PaintSegment(cell, i, count, isHover, isActive, radius);
    RoundedRectangleShape(Padded(cell), radius, p.corners);
  }

  /** A segment is filled and outlined exactly when it is hovered or
      active, with the selected brush taking precedence over the hover
      one; the separator is drawn exactly when the crumb is not the last. */
  lemma SegmentHighlightAndSeparator(cell: Rect, i: nat, count: nat, isHover: bool, isActive: bool, radius: int)
    ensures var p := PaintSegment(cell, i, count, isHover, isActive, radius);
      (p.border != [] <==> isHover || isActive)
      && (p.innerLine != [] <==> isHover || isActive)
      && (p.fill == Selected <==> isActive)
      && (p.fill == Prelight <==> isHover && !isActive)
      && (p.separator != [] <==> i + 1 != count)
  {
    var p := PaintSegment(cell, i, count, isHover, isActive, radius);
    RoundedRectangleShape(Padded(cell), radius, p.corners);
    RoundedRectangleShape(Inset(Padded(cell)), radius, p.corners);
  }

  /** Where the separator goes: the dark stroke is 7 pixels right of the
      cell's right edge, the light one half a pixel further, spanning the
      padded height; on a highlighted crumb both sit one pixel further left
      and one pixel shorter at each end. */
  lemma SeparatorPosition(cell: Rect, i: nat, count: nat, isHover: bool, isActive: bool, radius: int)
    requires i + 1 != count
    ensures var p := PaintSegment(cell, i, count, isHover, isActive, radius);
      var shift := if isHover || isActive then 1 else 0;
      var x := 2 * (cell.x + cell.w + 7 - shift);
      p.separator == [MoveTo(Point(x, 2 * (cell.y - 4 + shift))), LineTo(Point(x, 2 * (cell.y + cell.h + 4 - shift))),
                      MoveTo(Point(x + 1, 2 * (cell.y - 4 + shift))), LineTo(Point(x + 1, 2 * (cell.y + cell.h + 4 - shift)))]
  {
  }

  /** After a layout pass with spacing at least 3, both separator strokes
      after crumb i lie strictly between its rectangle and the next one. */
  lemma SeparatorBetweenCells(ws: seq<int>, spacing: int, xoffset: int, yoffset: int, height: int,
                              i: nat, isHover: bool, isActive: bool, radius: int)
    requires spacing >= 3
    requires i + 1 < |ws|
    ensures var cells := Cells(ws, spacing, xoffset, yoffset, height);
      var p := PaintSegment(cells[i], i, |ws|, isHover, isActive, radius);
      forall k :: 0 <= k < |p.separator| ==>
        2 * (cells[i].x + cells[i].w) < p.separator[k].p.x < 2 * cells[i + 1].x
  {
    CellsStep(ws, spacing, xoffset, yoffset, height, i);
  }
}
