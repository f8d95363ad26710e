/** The geometry helper of the widget: rectangles, the Corners bitmask and
    the rounded-rectangle path (CrumbHelper in Crumbs.cs).

    Path coordinates are kept in half-pixel units: the integer value v
    stands for the device coordinate v / 2. The helper strokes every edge
    half a pixel inside the area, so all its points are exact in these
    units: area.X + 0.5 is 2 * area.X + 1. */
module Geometry {

  /** A Gdk.Rectangle: origin and extent in whole pixels. */
  datatype Rect = Rect(x: int, y: int, w: int, h: int)

  /** A path point in half-pixel units. */
  datatype Point = Point(x: int, y: int)

  /** One Cairo path operation. */
  datatype PathCmd =
    | MoveTo(p: Point)
    | LineTo(p: Point)
    | CurveTo(c1: Point, c2: Point, p: Point)

  /** The Corners enum: a byte of flags. */
  type Corners = bv8

  const NoCorners: Corners := 0
  const TopLeft: Corners := 1
  const TopRight: Corners := 2
  const BottomRight: Corners := 4
  const BottomLeft: Corners := 8
  const AllCorners: Corners := 15

  /** All is exactly the union of the four single corners. */
  lemma AllIsUnion()
    ensures AllCorners == TopLeft | TopRight | BottomRight | BottomLeft
    ensures TopLeft & TopRight == TopLeft & BottomRight == TopLeft & BottomLeft == NoCorners
    ensures TopRight & BottomRight == TopRight & BottomLeft == BottomRight & BottomLeft == NoCorners
  {
  }

  /** The test (corners & corner) > 0 on the byte. */
  predicate Rounded(corners: Corners, corner: Corners) {
    corners & corner != 0
  }

  function CurveCount(cmds: seq<PathCmd>): nat {
    if |cmds| == 0 then 0
    else (if cmds[0].CurveTo? then 1 else 0) + CurveCount(cmds[1..])
  }

  function LineCount(cmds: seq<PathCmd>): nat {
    if |cmds| == 0 then 0
    else (if cmds[0].LineTo? then 1 else 0) + LineCount(cmds[1..])
  }

  function Bit(b: bool): nat { if b then 1 else 0 }

  /** One side of the outline: the straight edge up to `edgeEnd`, then the
      corner that follows it, reached from `edgeEnd` and left at `to`. A
      rounded corner is one Bezier curve; a sharp one is a line to its
      vertex and a line on to `to`. */
  function Side(edgeEnd: Point, rounded: bool, control: Point, to: Point, vertex: Point): seq<PathCmd> {
    if rounded then [LineTo(edgeEnd), CurveTo(edgeEnd, control, to)]
    else [LineTo(edgeEnd), LineTo(vertex), LineTo(to)]
  }

  lemma SideShape(edgeEnd: Point, rounded: bool, control: Point, to: Point, vertex: Point)
    ensures var cmds := Side(edgeEnd, rounded, control, to, vertex);
      |cmds| == 3 - Bit(rounded)
      && cmds[0] == LineTo(edgeEnd) && cmds[|cmds| - 1].p == to
      && CurveCount(cmds) == Bit(rounded)
      && LineCount(cmds) == 1 + 2 * (1 - Bit(rounded))
  {
    var cmds := Side(edgeEnd, rounded, control, to, vertex);
    if rounded {
      assert cmds[1..] == [cmds[1]] && cmds[1..][1..] == [];
      assert CurveCount(cmds[1..]) == 1 && LineCount(cmds[1..]) == 0;
    } else {
      assert cmds[1..] == [cmds[1], cmds[2]] && cmds[1..][1..] == [cmds[2]] && cmds[1..][1..][1..] == [];
      assert CurveCount(cmds[1..][1..]) == 0 && LineCount(cmds[1..][1..]) == 1;
      assert CurveCount(cmds[1..]) == 0 && LineCount(cmds[1..]) == 2;
    }
  }

  /** CrumbHelper.RoundedRectangle(cr, area, radius, corners): the path,
      starting on the top edge and going clockwise, top right corner
      first. */
  function RoundedRectangle(area: Rect, radius: int, corners: Corners): seq<PathCmd> {
    Outline(area, radius, Rounded(corners, TopRight), Rounded(corners, BottomRight),
            Rounded(corners, BottomLeft), Rounded(corners, TopLeft))
  }

  /** The outline with each corner's choice given as a flag. */
  function Outline(area: Rect, radius: int, tr: bool, br: bool, bl: bool, tl: bool): seq<PathCmd> {
    var left, top := 2 * area.x, 2 * area.y;
    var right, bottom := 2 * (area.x + area.w), 2 * (area.y + area.h);
    var r := 2 * radius;
    [MoveTo(Point(left + r + 1, top + 1))]
    + Side(Point(right - r - 1, top + 1), tr, Point(right, top),
           Point(right - 1, top + r + 1), Point(right - 1, top + 1))
    + Side(Point(right - 1, bottom - r - 1), br, Point(right, bottom),
           Point(right - 1 - r, bottom - 1), Point(right - 1, bottom - 1))
    + Side(Point(left + 1 + r, bottom - 1), bl, Point(left, bottom),
           Point(left + 1, bottom - 1 - r), Point(left + 1, bottom - 1))
    + Side(Point(left + 1, top + 1 + r), tl, Point(left, top),
           Point(left + 1 + r, top + 1), Point(left + 1, top + 1))
  }

  /** Where the path starts: radius plus half a pixel right of the left
      edge, half a pixel below the top edge. */
  function PathStart(area: Rect, radius: int): Point {
    Point(2 * (area.x + radius) + 1, 2 * area.y + 1)
  }

  lemma {:induction false} CountsAdd(a: seq<PathCmd>, b: seq<PathCmd>)
    ensures CurveCount(a + b) == CurveCount(a) + CurveCount(b)
    ensures LineCount(a + b) == LineCount(a) + LineCount(b)
  {
    if |a| == 0 {
      assert a + b == b;
    } else {
      assert (a + b)[0] == a[0];
      assert (a + b)[1..] == a[1..] + b;
      CountsAdd(a[1..], b);
    }
  }

  lemma CountsOfOutline(m: PathCmd, s1: seq<PathCmd>, s2: seq<PathCmd>, s3: seq<PathCmd>, s4: seq<PathCmd>)
    requires m.MoveTo?
    ensures CurveCount([m] + s1 + s2 + s3 + s4)
         == CurveCount(s1) + CurveCount(s2) + CurveCount(s3) + CurveCount(s4)
    ensures LineCount([m] + s1 + s2 + s3 + s4)
         == LineCount(s1) + LineCount(s2) + LineCount(s3) + LineCount(s4)
  {
    assert CurveCount([m]) == 0 && LineCount([m]) == 0 by {
      assert [m][1..] == [];
    }
    CountsAdd([m], s1);
    CountsAdd([m] + s1, s2);
    CountsAdd([m] + s1 + s2, s3);
    CountsAdd([m] + s1 + s2 + s3, s4);
  }

  /** The number of corners the path rounds. */
  function RoundedCount(corners: Corners): nat {
    Bit(Rounded(corners, TopLeft)) + Bit(Rounded(corners, TopRight))
    + Bit(Rounded(corners, BottomRight)) + Bit(Rounded(corners, BottomLeft))
  }

  /** The shape of the whole path: it opens with a move to the start
      point, ends back on the start point, has one curve per rounded
      corner, and two lines per sharp corner besides the four edges. */
  lemma RoundedRectangleShape(area: Rect, radius: int, corners: Corners)
    ensures var path := RoundedRectangle(area, radius, corners);
      path[0] == MoveTo(PathStart(area, radius))
      && path[|path| - 1].p == PathStart(area, radius)
      && CurveCount(path) == RoundedCount(corners)
      && LineCount(path) == 4 + 2 * (4 - RoundedCount(corners))
      && |path| == 13 - RoundedCount(corners)
  {
    OutlineShape(area, radius, Rounded(corners, TopRight), Rounded(corners, BottomRight),
                 Rounded(corners, BottomLeft), Rounded(corners, TopLeft));
  }

  /** The shape of the outline for any choice of rounded corners. */
  lemma OutlineShape(area: Rect, radius: int, tr: bool, br: bool, bl: bool, tl: bool)
    ensures var path := Outline(area, radius, tr, br, bl, tl);
      var n := Bit(tr) + Bit(br) + Bit(bl) + Bit(tl);
      path[0] == MoveTo(PathStart(area, radius))
      && path[|path| - 1].p == PathStart(area, radius)
      && CurveCount(path) == n
      && LineCount(path) == 4 + 2 * (4 - n)
      && |path| == 13 - n
  {
    OutlineEnds(area, radius, tr, br, bl, tl);
    OutlineCounts(area, radius, tr, br, bl, tl);
  }

  lemma OutlineEnds(area: Rect, radius: int, tr: bool, br: bool, bl: bool, tl: bool)
    ensures var path := Outline(area, radius, tr, br, bl, tl);
      path[0] == MoveTo(PathStart(area, radius))
      && path[|path| - 1].p == PathStart(area, radius)
      && |path| == 13 - (Bit(tr) + Bit(br) + Bit(bl) + Bit(tl))
  {
    var left, top := 2 * area.x, 2 * area.y;
    var right, bottom := 2 * (area.x + area.w), 2 * (area.y + area.h);
    var r := 2 * radius;
    var m := MoveTo(Point(left + r + 1, top + 1));
    var s1 := Side(Point(right - r - 1, top + 1), tr, Point(right, top),
                   Point(right - 1, top + r + 1), Point(right - 1, top + 1));
    var s2 := Side(Point(right - 1, bottom - r - 1), br, Point(right, bottom),
                   Point(right - 1 - r, bottom - 1), Point(right - 1, bottom - 1));
    var s3 := Side(Point(left + 1 + r, bottom - 1), bl, Point(left, bottom),
                   Point(left + 1, bottom - 1 - r), Point(left + 1, bottom - 1));
    var s4 := Side(Point(left + 1, top + 1 + r), tl, Point(left, top),
                   Point(left + 1 + r, top + 1), Point(left + 1, top + 1));
    SideShape(Point(right - r - 1, top + 1), tr, Point(right, top),
              Point(right - 1, top + r + 1), Point(right - 1, top + 1));
    SideShape(Point(right - 1, bottom - r - 1), br, Point(right, bottom),
              Point(right - 1 - r, bottom - 1), Point(right - 1, bottom - 1));
    SideShape(Point(left + 1 + r, bottom - 1), bl, Point(left, bottom),
              Point(left + 1, bottom - 1 - r), Point(left + 1, bottom - 1));
    SideShape(Point(left + 1, top + 1 + r), tl, Point(left, top),
              Point(left + 1 + r, top + 1), Point(left + 1, top + 1));
  }

  lemma OutlineCounts(area: Rect, radius: int, tr: bool, br: bool, bl: bool, tl: bool)
    ensures var path := Outline(area, radius, tr, br, bl, tl);
      var n := Bit(tr) + Bit(br) + Bit(bl) + Bit(tl);
      CurveCount(path) == n && LineCount(path) == 4 + 2 * (4 - n)
  {
    var left, top := 2 * area.x, 2 * area.y;
    var right, bottom := 2 * (area.x + area.w), 2 * (area.y + area.h);
    var r := 2 * radius;
    var m := MoveTo(Point(left + r + 1, top + 1));
    var s1 := Side(Point(right - r - 1, top + 1), tr, Point(right, top),
                   Point(right - 1, top + r + 1), Point(right - 1, top + 1));
    var s2 := Side(Point(right - 1, bottom - r - 1), br, Point(right, bottom),
                   Point(right - 1 - r, bottom - 1), Point(right - 1, bottom - 1));
    var s3 := Side(Point(left + 1 + r, bottom - 1), bl, Point(left, bottom),
                   Point(left + 1, bottom - 1 - r), Point(left + 1, bottom - 1));
    var s4 := Side(Point(left + 1, top + 1 + r), tl, Point(left, top),
                   Point(left + 1 + r, top + 1), Point(left + 1, top + 1));
    SideShape(Point(right - r - 1, top + 1), tr, Point(right, top),
              Point(right - 1, top + r + 1), Point(right - 1, top + 1));
    SideShape(Point(right - 1, bottom - r - 1), br, Point(right, bottom),
              Point(right - 1 - r, bottom - 1), Point(right - 1, bottom - 1));
    SideShape(Point(left + 1 + r, bottom - 1), bl, Point(left, bottom),
              Point(left + 1, bottom - 1 - r), Point(left + 1, bottom - 1));
    SideShape(Point(left + 1, top + 1 + r), tl, Point(left, top),
              Point(left + 1 + r, top + 1), Point(left + 1, top + 1));
    CountsOfOutline(m, s1, s2, s3, s4);
  }

  /** p lies on one of the four edges of the rectangle half a pixel
      inside the area (in half-pixel units), within that edge's extent. */
  predicate OnInsetBorder(area: Rect, p: Point) {
    var left, top := 2 * area.x + 1, 2 * area.y + 1;
    var right, bottom := 2 * (area.x + area.w) - 1, 2 * (area.y + area.h) - 1;
    ((p.y == top || p.y == bottom) && left <= p.x <= right)
    || ((p.x == left || p.x == right) && top <= p.y <= bottom)
  }

  /** Each command goes from the point before it along a horizontal or a
      vertical line. */
  predicate Rectilinear(cmds: seq<PathCmd>) {
    forall k :: 0 < k < |cmds| ==> cmds[k].p.x == cmds[k - 1].p.x || cmds[k].p.y == cmds[k - 1].p.y
  }

  predicate Aligned(p: Point, q: Point) {
    p.x == q.x || p.y == q.y
  }

  /** With no corner bit set, and a radius that fits the area, the path is
      the plain rectangle: only moves and lines, every point on an edge of
      the half-pixel inset rectangle, every step horizontal or vertical,
      and each of its four vertices visited. */
  lemma SharpPathIsRectangle(area: Rect, radius: int, corners: Corners)
    requires corners & AllCorners == NoCorners
    requires 0 <= radius && radius + 1 <= area.w && radius + 1 <= area.h
    ensures var path := RoundedRectangle(area, radius, corners);
      CurveCount(path) == 0
      && SharpOnBorder(area, path)
      && Rectilinear(path)
      && LineTo(Point(2 * (area.x + area.w) - 1, 2 * area.y + 1)) in path
      && LineTo(Point(2 * (area.x + area.w) - 1, 2 * (area.y + area.h) - 1)) in path
      && LineTo(Point(2 * area.x + 1, 2 * (area.y + area.h) - 1)) in path
      && LineTo(Point(2 * area.x + 1, 2 * area.y + 1)) in path
  {
    assert !Rounded(corners, TopLeft) && !Rounded(corners, TopRight);
    assert !Rounded(corners, BottomRight) && !Rounded(corners, BottomLeft);
    assert RoundedRectangle(area, radius, corners) == Outline(area, radius, false, false, false, false);
    SharpOutline(area, radius);
    SharpOutlineRectilinear(area, radius);
    SharpOutlineVertices(area, radius);
    RoundedRectangleShape(area, radius, corners);
  }

  lemma SharpSide(edgeEnd: Point, control: Point, to: Point, vertex: Point)
    ensures forall cmd :: cmd in Side(edgeEnd, false, control, to, vertex) ==>
      cmd == LineTo(edgeEnd) || cmd == LineTo(vertex) || cmd == LineTo(to)
    ensures LineTo(vertex) in Side(edgeEnd, false, control, to, vertex)
  {
    assert Side(edgeEnd, false, control, to, vertex) == [LineTo(edgeEnd), LineTo(vertex), LineTo(to)];
  }

  /** Every command of cmds is a move or a line to a point of the inset border. */
  predicate SharpOnBorder(area: Rect, cmds: seq<PathCmd>) {
    forall cmd :: cmd in cmds ==> !cmd.CurveTo? && OnInsetBorder(area, cmd.p)
  }

  lemma SharpOnBorderConcat(area: Rect, a: seq<PathCmd>, b: seq<PathCmd>)
    requires SharpOnBorder(area, a) && SharpOnBorder(area, b)
    ensures SharpOnBorder(area, a + b)
  {
  }

  lemma SharpSideOnBorder(area: Rect, edgeEnd: Point, control: Point, to: Point, vertex: Point)
    requires OnInsetBorder(area, edgeEnd) && OnInsetBorder(area, to) && OnInsetBorder(area, vertex)
    ensures SharpOnBorder(area, Side(edgeEnd, false, control, to, vertex))
  {
    SharpSide(edgeEnd, control, to, vertex);
  }

  lemma SharpOutline(area: Rect, radius: int)
    requires 0 <= radius && radius + 1 <= area.w && radius + 1 <= area.h
    ensures SharpOnBorder(area, Outline(area, radius, false, false, false, false))
  {
    var left, top := 2 * area.x, 2 * area.y;
    var right, bottom := 2 * (area.x + area.w), 2 * (area.y + area.h);
    var r := 2 * radius;
    var m := [MoveTo(Point(left + r + 1, top + 1))];
    var s1 := Side(Point(right - r - 1, top + 1), false, Point(right, top), Point(right - 1, top + r + 1), Point(right - 1, top + 1));
    var s2 := Side(Point(right - 1, bottom - r - 1), false, Point(right, bottom), Point(right - 1 - r, bottom - 1), Point(right - 1, bottom - 1));
    var s3 := Side(Point(left + 1 + r, bottom - 1), false, Point(left, bottom), Point(left + 1, bottom - 1 - r), Point(left + 1, bottom - 1));
    var s4 := Side(Point(left + 1, top + 1 + r), false, Point(left, top), Point(left + 1 + r, top + 1), Point(left + 1, top + 1));
    assert Outline(area, radius, false, false, false, false) == m + s1 + s2 + s3 + s4;
    SharpSideOnBorder(area, Point(right - r - 1, top + 1), Point(right, top), Point(right - 1, top + r + 1), Point(right - 1, top + 1));
    SharpSideOnBorder(area, Point(right - 1, bottom - r - 1), Point(right, bottom), Point(right - 1 - r, bottom - 1), Point(right - 1, bottom - 1));
    SharpSideOnBorder(area, Point(left + 1 + r, bottom - 1), Point(left, bottom), Point(left + 1, bottom - 1 - r), Point(left + 1, bottom - 1));
    SharpSideOnBorder(area, Point(left + 1, top + 1 + r), Point(left, top), Point(left + 1 + r, top + 1), Point(left + 1, top + 1));
    assert SharpOnBorder(area, m);
    SharpOnBorderConcat(area, m, s1);
    SharpOnBorderConcat(area, m + s1, s2);
    SharpOnBorderConcat(area, m + s1 + s2, s3);
    SharpOnBorderConcat(area, m + s1 + s2 + s3, s4);
  }

  lemma RectilinearConcat(a: seq<PathCmd>, b: seq<PathCmd>)
    requires Rectilinear(a) && Rectilinear(b) && |a| > 0 && |b| > 0
    requires Aligned(a[|a| - 1].p, b[0].p)
    ensures Rectilinear(a + b)
  {
    forall k | 0 < k < |a + b|
      ensures Aligned((a + b)[k].p, (a + b)[k - 1].p)
    {
      if k > |a| {
        assert (a + b)[k] == b[k - |a|] && (a + b)[k - 1] == b[k - 1 - |a|];
      }
    }
  }

  /** A sharp side turns at its vertex: both of its steps are straight
      when the vertex is aligned with the points on either side. */
  lemma SharpSideRectilinear(edgeEnd: Point, control: Point, to: Point, vertex: Point)
    requires Aligned(edgeEnd, vertex) && Aligned(vertex, to)
    ensures var cmds := Side(edgeEnd, false, control, to, vertex);
      Rectilinear(cmds) && cmds[0].p == edgeEnd && cmds[|cmds| - 1].p == to
  {
  }

  lemma RectilinearParts(m: PathCmd, s1: seq<PathCmd>, s2: seq<PathCmd>, s3: seq<PathCmd>, s4: seq<PathCmd>)
    requires Rectilinear(s1) && Rectilinear(s2) && Rectilinear(s3) && Rectilinear(s4)
    requires |s1| > 0 && |s2| > 0 && |s3| > 0 && |s4| > 0
    requires Aligned(m.p, s1[0].p) && Aligned(s1[|s1| - 1].p, s2[0].p)
    requires Aligned(s2[|s2| - 1].p, s3[0].p) && Aligned(s3[|s3| - 1].p, s4[0].p)
    ensures Rectilinear([m] + s1 + s2 + s3 + s4)
  {
    RectilinearConcat([m], s1);
    RectilinearConcat([m] + s1, s2);
    RectilinearConcat([m] + s1 + s2, s3);
    RectilinearConcat([m] + s1 + s2 + s3, s4);
  }

  lemma SharpOutlineRectilinear(area: Rect, radius: int)
    ensures Rectilinear(Outline(area, radius, false, false, false, false))
  {
    var left, top := 2 * area.x, 2 * area.y;
    var right, bottom := 2 * (area.x + area.w), 2 * (area.y + area.h);
    var r := 2 * radius;
    var m := MoveTo(Point(left + r + 1, top + 1));
    var s1 := Side(Point(right - r - 1, top + 1), false, Point(right, top), Point(right - 1, top + r + 1), Point(right - 1, top + 1));
    var s2 := Side(Point(right - 1, bottom - r - 1), false, Point(right, bottom), Point(right - 1 - r, bottom - 1), Point(right - 1, bottom - 1));
    var s3 := Side(Point(left + 1 + r, bottom - 1), false, Point(left, bottom), Point(left + 1, bottom - 1 - r), Point(left + 1, bottom - 1));
    var s4 := Side(Point(left + 1, top + 1 + r), false, Point(left, top), Point(left + 1 + r, top + 1), Point(left + 1, top + 1));
    assert Outline(area, radius, false, false, false, false) == [m] + s1 + s2 + s3 + s4;
    SharpSideRectilinear(Point(right - r - 1, top + 1), Point(right, top), Point(right - 1, top + r + 1), Point(right - 1, top + 1));
    SharpSideRectilinear(Point(right - 1, bottom - r - 1), Point(right, bottom), Point(right - 1 - r, bottom - 1), Point(right - 1, bottom - 1));
    SharpSideRectilinear(Point(left + 1 + r, bottom - 1), Point(left, bottom), Point(left + 1, bottom - 1 - r), Point(left + 1, bottom - 1));
    SharpSideRectilinear(Point(left + 1, top + 1 + r), Point(left, top), Point(left + 1 + r, top + 1), Point(left + 1, top + 1));
    RectilinearParts(m, s1, s2, s3, s4);
  }

  lemma SharpOutlineVertices(area: Rect, radius: int)
    ensures var path := Outline(area, radius, false, false, false, false);
      LineTo(Point(2 * (area.x + area.w) - 1, 2 * area.y + 1)) in path
      && LineTo(Point(2 * (area.x + area.w) - 1, 2 * (area.y + area.h) - 1)) in path
      && LineTo(Point(2 * area.x + 1, 2 * (area.y + area.h) - 1)) in path
      && LineTo(Point(2 * area.x + 1, 2 * area.y + 1)) in path
  {
    var left, top := 2 * area.x, 2 * area.y;
    var right, bottom := 2 * (area.x + area.w), 2 * (area.y + area.h);
    var r := 2 * radius;
    var m := [MoveTo(Point(left + r + 1, top + 1))];
    var s1 := Side(Point(right - r - 1, top + 1), false, Point(right, top), Point(right - 1, top + r + 1), Point(right - 1, top + 1));
    var s2 := Side(Point(right - 1, bottom - r - 1), false, Point(right, bottom), Point(right - 1 - r, bottom - 1), Point(right - 1, bottom - 1));
    var s3 := Side(Point(left + 1 + r, bottom - 1), false, Point(left, bottom), Point(left + 1, bottom - 1 - r), Point(left + 1, bottom - 1));
    var s4 := Side(Point(left + 1, top + 1 + r), false, Point(left, top), Point(left + 1 + r, top + 1), Point(left + 1, top + 1));
    assert Outline(area, radius, false, false, false, false) == m + s1 + s2 + s3 + s4;
    SharpSide(Point(right - r - 1, top + 1), Point(right, top), Point(right - 1, top + r + 1), Point(right - 1, top + 1));
    SharpSide(Point(right - 1, bottom - r - 1), Point(right, bottom), Point(right - 1 - r, bottom - 1), Point(right - 1, bottom - 1));
    SharpSide(Point(left + 1 + r, bottom - 1), Point(left, bottom), Point(left + 1, bottom - 1 - r), Point(left + 1, bottom - 1));
    SharpSide(Point(left + 1, top + 1 + r), Point(left, top), Point(left + 1 + r, top + 1), Point(left + 1, top + 1));
  }

  /** With every corner bit set each corner is one curve whose middle
      control point is that corner of the area itself, and which runs
      from 2 * radius half-pixels before the inset rectangle's vertex, on
      the edge it arrives by, to 2 * radius half-pixels along the edge it
      leaves by. */
  lemma FullyRoundedPath(area: Rect, radius: int, corners: Corners)
    requires corners & AllCorners == AllCorners
    ensures var path := RoundedRectangle(area, radius, corners);
      CurveCount(path) == 4 && |path| == 9
      && path[2].CurveTo? && path[2].c2 == Point(2 * (area.x + area.w), 2 * area.y)
      && path[4].CurveTo? && path[4].c2 == Point(2 * (area.x + area.w), 2 * (area.y + area.h))
      && path[6].CurveTo? && path[6].c2 == Point(2 * area.x, 2 * (area.y + area.h))
      && path[8].CurveTo? && path[8].c2 == Point(2 * area.x, 2 * area.y)
    ensures var path := RoundedRectangle(area, radius, corners);
      var left, top := 2 * area.x + 1, 2 * area.y + 1;
      var right, bottom := 2 * (area.x + area.w) - 1, 2 * (area.y + area.h) - 1;
      var r := 2 * radius;
      |path| == 9
      && path[2].c1 == Point(right - r, top) && path[2].p == Point(right, top + r)
      && path[4].c1 == Point(right, bottom - r) && path[4].p == Point(right - r, bottom)
      && path[6].c1 == Point(left + r, bottom) && path[6].p == Point(left, bottom - r)
      && path[8].c1 == Point(left, top + r) && path[8].p == Point(left + r, top)
  {
    assert Rounded(corners, TopLeft) && Rounded(corners, TopRight);
    assert Rounded(corners, BottomRight) && Rounded(corners, BottomLeft);
    RoundedRectangleShape(area, radius, corners);
  }

  /** Each curve leaves from the point the path is already at: its first
      control point repeats the end of the preceding command. */
  lemma CurvesStartAtCurrentPoint(area: Rect, radius: int, corners: Corners)
    ensures var path := RoundedRectangle(area, radius, corners);
      forall i :: 0 < i < |path| && path[i].CurveTo? ==> path[i].c1 == path[i - 1].p
  {
    OutlineChained(area, radius, Rounded(corners, TopRight), Rounded(corners, BottomRight),
                   Rounded(corners, BottomLeft), Rounded(corners, TopLeft));
  }

  /** Every curve of cmds leaves from the end point of the command before it. */
  predicate CurvesChained(cmds: seq<PathCmd>) {
    forall i :: 0 < i < |cmds| && cmds[i].CurveTo? ==> cmds[i].c1 == cmds[i - 1].p
  }

  lemma ChainedConcat(a: seq<PathCmd>, b: seq<PathCmd>)
    requires CurvesChained(a) && CurvesChained(b) && |b| > 0 && b[0].LineTo?
    ensures CurvesChained(a + b)
  {
    forall i | 0 < i < |a + b| && (a + b)[i].CurveTo?
      ensures (a + b)[i].c1 == (a + b)[i - 1].p
    {
      if i > |a| {
        assert (a + b)[i] == b[i - |a|] && (a + b)[i - 1] == b[i - 1 - |a|];
      }
    }
  }

  lemma SideChained(edgeEnd: Point, rounded: bool, control: Point, to: Point, vertex: Point)
    ensures var cmds := Side(edgeEnd, rounded, control, to, vertex);
      CurvesChained(cmds) && cmds[0].LineTo?
  {
  }

  lemma OutlineChained(area: Rect, radius: int, tr: bool, br: bool, bl: bool, tl: bool)
    ensures CurvesChained(Outline(area, radius, tr, br, bl, tl))
  {
    var left, top := 2 * area.x, 2 * area.y;
    var right, bottom := 2 * (area.x + area.w), 2 * (area.y + area.h);
    var r := 2 * radius;
    var m := MoveTo(Point(left + r + 1, top + 1));
    var s1 := Side(Point(right - r - 1, top + 1), tr, Point(right, top),
                   Point(right - 1, top + r + 1), Point(right - 1, top + 1));
    var s2 := Side(Point(right - 1, bottom - r - 1), br, Point(right, bottom),
                   Point(right - 1 - r, bottom - 1), Point(right - 1, bottom - 1));
    var s3 := Side(Point(left + 1 + r, bottom - 1), bl, Point(left, bottom),
                   Point(left + 1, bottom - 1 - r), Point(left + 1, bottom - 1));
    var s4 := Side(Point(left + 1, top + 1 + r), tl, Point(left, top),
                   Point(left + 1 + r, top + 1), Point(left + 1, top + 1));
    assert CurvesChained([m] + s1 + s2 + s3 + s4) by {
      SideChained(Point(right - r - 1, top + 1), tr, Point(right, top),
                  Point(right - 1, top + r + 1), Point(right - 1, top + 1));
      SideChained(Point(right - 1, bottom - r - 1), br, Point(right, bottom),
                  Point(right - 1 - r, bottom - 1), Point(right - 1, bottom - 1));
      SideChained(Point(left + 1 + r, bottom - 1), bl, Point(left, bottom),
                  Point(left + 1, bottom - 1 - r), Point(left + 1, bottom - 1));
      SideChained(Point(left + 1, top + 1 + r), tl, Point(left, top),
                  Point(left + 1 + r, top + 1), Point(left + 1, top + 1));
      ChainedParts(m, s1, s2, s3, s4);
    }
    assert Outline(area, radius, tr, br, bl, tl) == [m] + s1 + s2 + s3 + s4;
  }

  lemma ChainedParts(m: PathCmd, s1: seq<PathCmd>, s2: seq<PathCmd>, s3: seq<PathCmd>, s4: seq<PathCmd>)
    requires CurvesChained(s1) && CurvesChained(s2) && CurvesChained(s3) && CurvesChained(s4)
    requires |s1| > 0 && s1[0].LineTo? && |s2| > 0 && s2[0].LineTo?
    requires |s3| > 0 && s3[0].LineTo? && |s4| > 0 && s4[0].LineTo?
    ensures CurvesChained([m] + s1 + s2 + s3 + s4)
  {
    ChainedConcat([m], s1);
    ChainedConcat([m] + s1, s2);
    ChainedConcat([m] + s1 + s2, s3);
    ChainedConcat([m] + s1 + s2 + s3, s4);
  }

  /** The integer part of ToCairoColor: a 16-bit toolkit channel shifted
      down to its high byte. */
  function ColorChannel(c: bv16): (r: int)
    ensures 0 <= r <= 255
  {
    (c >> 8) as int
  }

  /** The shift keeps the channel divided by 256. */
  lemma ChannelIsHighByte(c: bv16)
    ensures ColorChannel(c) == c as int / 256
  {
  }
}
