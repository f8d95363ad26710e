# Manico breadcrumbs in Dafny

A verified model of the core of Manico's breadcrumb widget for GTK#.
The widget shows a row of crumbs as one rounded bar: the first crumb
rounds its left corners, the last its right ones, and a thin double line
separates neighbours. The hovered crumb and the active crumb are
highlighted. Clicking a crumb makes it the active one, and scrolling moves
the active crumb along the row. Either way the container raises `Changed`.

The model has four modules:

- `Collections` holds the .NET collection behaviour the code relies on, as
  values. `List<T>.IndexOf` is `IndexOf`, `List<T>.Remove` is `RemoveFirst`
  and `List<T>.Insert` is `InsertAt`. Writing and reading the
  `Dictionary<K,V>` indexer once per listed crumb is `Assign` and `Lookup`.
  Later writes win.
- `Geometry` holds rectangles, the `Corners` byte enum (as `bv8`),
  `CrumbHelper.RoundedRectangle` as a list of path commands, and
  `ToCairoColor`'s channel extraction.
  - Path points are in half-pixel units: 2v stands for v, so the source's
    `+ 0.5` offsets are exact (`+ 1`).
- `Layout` holds the pure arithmetic and decisions of the container: the
  size request, the allocated rectangles, the hit test, the scroll step,
  and what is painted for each segment.
- `Manico` holds the classes `Crumb` and `Crumbs`. Their fields are the
  source's fields. Their methods update them as the source does, with the
  source's loops. The size request, the layout pass, the hit test, the
  scroll step and the paint pass are each proved against the `Layout`
  function they compute; the setters and the list operations state their
  new state directly.
  - The toolkit side effects are counters that the methods advance:
    `QueueDraw`, `QueueResize`, raising `Changed` and raising `Clicked`.
  - Handler subscription (`event +=`) is a counter too.
  - A child's size request comes from the toolkit. It is the `measure`
    parameter.
  - A click and a scroll are entered through `OnButtonRelease` and
    `OnScroll`. Mouse coordinates are `real`.

Throwing calls appear in two ways:

- Calls that throw for some inputs return a `Status`, and when one throws
  nothing changes. These are `List.Insert` with a bad index, a scroll
  up or left with no listed active crumb, which indexes the list at -2,
  and a motion event that reaches a crumb without a cached rectangle
  before any hit. The last can happen because input events can arrive
  between an `Append` or `Insert` and the next layout pass.
- In the layout and paint passes, an indexer read of a crumb that has no
  cached request or rectangle is a precondition of the handler. GTK runs a
  size request before the allocation, and an allocation before a draw.

For the four-crumb trail with requested widths 24, 96, 112 and 72 at the
default metrics, the code asks for 364 pixels: the widths give 304, five
spacings 30, three separators 6 and the x offset on both sides 18, which
makes 358, plus the 6-pixel growth margin (`Layout.FourCrumbRequest`).

The request budgets `spacing + 2` pixels per gap between crumbs, while the
allocation advances `2 * spacing + 2`. After the last cell, the request
therefore leaves `(3 - N) * spacing + xoffset + 6` pixels
(`Layout.RequestMarginAfterLastCell`). At the defaults this goes negative
from six crumbs on (`Layout.SixCrumbsOutgrowRequest`). The model keeps
this layout as written.

## Model

| member | source | states |
|---|---|---|
| Collections.IndexOf | Crumbs.cs:467 | `List.IndexOf` is -1 exactly when the element is absent; otherwise it is the index of the first occurrence |
| Collections.RemoveFirst | Crumbs.cs:159 | `List.Remove` drops the first occurrence of the crumb; what that means is proved by the next two rows |
| Collections.RemoveFirstSplices | Crumbs.cs:159 | `List.Remove` splices out exactly the element at the first occurrence, and leaves a list without the element as it is |
| Collections.RemoveFirstMultiset | Crumbs.cs:159 | removing takes away one copy of the crumb if it is listed and nothing else; the length drops by one exactly then |
| Collections.InsertAt | Crumbs.cs:148 | `List.Insert` at an index in 0..N puts the crumb there and moves the later ones back; the next row proves it is found there and that removing it restores the list |
| Collections.RemoveInserted | Crumbs.cs:146-161 | a crumb inserted at index i into a list that lacks it is found at i, and removing it gives back the original list |
| Collections.Assign | Crumbs.cs:339 | one indexer write per listed crumb, in list order, later writes overriding earlier ones; its keys and values are given by the next four rows |
| Collections.AssignKeys | Crumbs.cs:382-383 | after the pass the dictionary holds exactly the old keys and the listed crumbs |
| Collections.AssignAt | Crumbs.cs:339 | after one indexer write per listed crumb, each crumb maps to the value of its last write |
| Collections.AssignOutside | Crumbs.cs:339 | a key that is not written keeps its old value, so entries of crumbs no longer listed stay cached |
| Collections.AssignSameValue | Crumbs.cs:382-383 | a crumb listed several times, written the same value each time, holds that value |
| Collections.Lookup | Crumbs.cs:337 | the indexer read for each listed crumb in turn; the next row proves it reads back what a pass wrote |
| Collections.LookupAssign | Crumbs.cs:382-383 | writing the listed crumbs' entries and reading them back in order gives the written values, whenever a repeated crumb is written the same value (so for distinct crumbs in particular) |
| Geometry.AllIsUnion | Crumbs.cs:504-512 | `Corners.All` (15) is the union of the four single-bit corners, and all six pairs of those bits are disjoint |
| Geometry.SideShape | Crumbs.cs:538-554 | one edge and its corner: a rounded corner adds one curve after the edge line, a sharp corner adds two lines; both end at the corner's exit point |
| Geometry.Outline | Crumbs.cs:533-609 | the path for each corner's rounded-or-sharp choice: a move to the start, then the top, right, bottom and left sides, each followed by its corner; its shape is proved by `Geometry.OutlineShape` and `Geometry.CurvesStartAtCurrentPoint` |
| Geometry.RoundedRectangle | Crumbs.cs:527-610 | the path with each corner rounded exactly when its bit is set; the next rows prove its shape |
| Geometry.RoundedRectangleShape | Crumbs.cs:527-610 | the path starts with a move to (X + r + ½, Y + ½) and ends at that same point; it has one curve per set corner bit and 4 + 2·(unset corners) lines |
| Geometry.SharpPathIsRectangle | Crumbs.cs:527-610 | with no corner bit set and a radius that fits the area, the path has no curves, every point lies on an edge of the rectangle inset by half a pixel and within that edge, every step is horizontal or vertical, and it visits the four inset vertices |
| Geometry.FullyRoundedPath | Crumbs.cs:527-610 | with all four bits set, the path has 9 commands, 4 of them curves; each curve runs from 2·radius half-pixels before an inset vertex to 2·radius half-pixels after it, pulled toward the corresponding corner of the area |
| Geometry.CurvesStartAtCurrentPoint | Crumbs.cs:533-608 | every curve's first control point is the point the path is already at |
| Geometry.ColorChannel | Crumbs.cs:617-623 | the channel shifted down by 8 bits, as Cairo's colour component is built from it, lies in 0..255 |
| Geometry.ChannelIsHighByte | Crumbs.cs:617-623 | that shifted channel is the 16-bit channel divided by 256, rounded down |
| Geometry.OutlineShape | Crumbs.cs:527-610 | for any choice of rounded corners the path opens and closes on the start point and has one curve per rounded corner and 4 + 2·(sharp corners) lines |
| Layout.SizeRequest | Crumbs.cs:366-396 | the request is -1 by -1 for an empty trail and at least the 16 by 16 minimum otherwise |
| Layout.TallestIsMaximum | Crumbs.cs:380 | the running `Math.Max` is at least every child height and at least 0, and equals one of the heights unless it is 0 |
| Layout.RequestHeightCoversChildren | Crumbs.cs:390-396 | the requested height leaves the y offset above and below every child |
| Layout.FourCrumbRequest | Crumbs.cs:386-393 | widths 24, 96, 112 and 72 at spacing 6 and x offset 9 give a request 364 pixels wide |
| Layout.OriginX | Crumbs.cs:328-342 | the x accumulator after the listed widths; the next row gives its closed form |
| Layout.OriginXClosedForm | Crumbs.cs:328-342 | crumb i starts at xoffset + Σ_{j<i} w_j + i·(2·spacing + 2) |
| Layout.Cells | Crumbs.cs:328-343 | the rectangle each listed crumb is allocated; the next two rows and `Layout.HitAfterLayout` prove how they are spaced and that they do not overlap |
| Layout.CellsStep | Crumbs.cs:335-342 | consecutive cells lie one width plus 2·spacing + 2 apart |
| Layout.CellsSeparated | Crumbs.cs:328-343 | with non-negative widths and spacing, each cell ends strictly before any later cell starts, so origins strictly increase |
| Layout.RequestMarginAfterLastCell | Crumbs.cs:328-393 | the requested width minus the last cell's right edge is (3 − N)·spacing + xoffset + 6 |
| Layout.SixCrumbsOutgrowRequest | Crumbs.cs:328-393 | six 10-pixel crumbs at the defaults request 136 pixels while the last cell reaches 139 |
| Layout.HitIndex | Crumbs.cs:425-438 | the hit is the first rectangle in list order that contains the point, edges included; there is no hit exactly when none contains it |
| Layout.FirstHit | Crumbs.cs:425-438 | the motion scan ends at the first crumb whose cached rectangle holds the point, or at the first crumb with no cached rectangle if that comes earlier; it finds nothing exactly when every crumb is cached and no rectangle holds the point |
| Layout.FirstHitWhenCached | Crumbs.cs:425-438 | with every crumb cached the scan never reaches a missing entry and finds what `Layout.HitIndex` finds |
| Layout.HitAfterLayout | Crumbs.cs:425-438 | after a layout pass, a point inside crumb i's rectangle hits crumb i and lies in no other crumb's rectangle |
| Layout.Scroll | Crumbs.cs:467-480 | a selected index is always in range; indexing at -2 happens exactly for up or left with no active crumb |
| Layout.ScrollMovesOneIndex | Crumbs.cs:467-480 | up and left select the previous crumb and do nothing at index 0; down and right select the next one and do nothing at the last; with none active, down selects crumb 0 |
| Layout.ScrollDownThenUp | Crumbs.cs:467-480 | scrolling down then up returns to the same crumb, except from the last one |
| Layout.CornersFor | Crumbs.cs:197-203 | the corner mask for crumb i of N; the next row proves which corners each position rounds |
| Layout.SegmentCorners | Crumbs.cs:197-211 | index 0, also when it is the only crumb, rounds exactly its left corners; the last of two or more rounds exactly its right corners; the others round none. A highlighted end crumb's outline has two curves |
| Layout.PaintSegment | Crumbs.cs:186-260 | what is painted for one crumb: corners, brush, outline, inner line and separator strokes; the rows around it prove each decision |
| Layout.SegmentHighlightAndSeparator | Crumbs.cs:205-244 | the fill, outline and inner line are drawn exactly when the crumb is hovered or active, with the selected brush taking precedence; a separator is drawn exactly when i + 1 ≠ N |
| Layout.SeparatorPosition | Crumbs.cs:230-260 | the dark stroke is 7 pixels right of the cell and the light one half a pixel further; on a highlighted crumb both move one pixel left and shorten by one pixel at each end |
| Layout.SeparatorBetweenCells | Crumbs.cs:244-260 | with spacing at least 3, both separator strokes lie strictly between the crumb and the next one |
| Manico.Crumb.Label | Crumb.cs:57-65 | the label's text when the widget is a label, empty otherwise; the constructors and `SetWidget` state what it returns after each of them |
| Manico.Crumb.constructor | Crumb.cs:37-41 | a new crumb holds an empty label, so `Label` is empty, and it belongs to no container |
| Manico.Crumb.FromMarkup | Crumb.cs:43-46 | the label widget's text is what the label makes of the markup, not the markup itself |
| Manico.Crumb.SetCrumbs | Crumb.cs:48-55 | the back-reference holds the last value assigned |
| Manico.Crumb.SetWidget | Crumb.cs:57-78 | the widget is replaced and `Label` follows it (its text for a label, empty otherwise); the container, if any, gets one resize request and nothing else about it changes |
| Manico.Crumb.SubscribeClicked | Crumb.cs:32 | registers one more `Clicked` handler |
| Manico.Crumb.EmitClicked | Crumb.cs:80-85 | `Clicked` is raised exactly when a handler is registered |
| Manico.Crumbs.constructor | Crumbs.cs:37-67 | an empty, unrealized trail with spacing 6, x offset 9, y offset 6, radius 5 and nothing cached |
| Manico.Crumbs.SubscribeChanged | Crumbs.cs:35 | registers one more `Changed` handler |
| Manico.Crumbs.SetActive | Crumbs.cs:69-81 | stores the crumb, queues one redraw and raises `Changed` once when it has a handler, also when the value is unchanged |
| Manico.Crumbs.SetRadius | Crumbs.cs:95-103 | stores the radius and queues a resize |
| Manico.Crumbs.SetSpacing | Crumbs.cs:105-113 | stores the spacing and queues a resize |
| Manico.Crumbs.SetXoffset | Crumbs.cs:115-123 | stores the x offset and queues a resize |
| Manico.Crumbs.SetYoffset | Crumbs.cs:125-133 | stores the y offset and queues a resize |
| Manico.Crumbs.PrepareCrumb | Crumbs.cs:485-491 | the crumb's back-reference becomes this container |
| Manico.Crumbs.UnprepareCrumb | Crumbs.cs:493-501 | the crumb's back-reference becomes null |
| Manico.Crumbs.Append | Crumbs.cs:135-144 | the crumb goes at the tail; its back-reference is set only if the container is realized; one resize is queued; `Attached` is preserved |
| Manico.Crumbs.Insert | Crumbs.cs:146-155 | an index outside 0..N throws and changes nothing; otherwise the crumb lands at the index, as `Append` does at the tail |
| Manico.Crumbs.Remove | Crumbs.cs:157-161 | drops the first occurrence, if any, and always clears the crumb's back-reference, even for a crumb that is not listed; cached rectangles, hover and active are untouched and no resize is queued; `Attached` is kept unless a second occurrence remains |
| Manico.Crumbs.OnRealized | Crumbs.cs:271-314 | marks the container realized and points every listed crumb back at it, so `Attached` holds |
| Manico.Crumbs.OnSizeRequested | Crumbs.cs:364-397 | returns `Layout.SizeRequest` of the children's requests and caches each child's request as a rectangle at the origin |
| Manico.Crumbs.OnSizeAllocated | Crumbs.cs:316-343 | caches `Layout.Cells` for every listed crumb: the requested width at x offset plus the earlier crumbs' advances, y offset as y, and the allocated height less twice the y offset |
| Manico.RequestThenAllocate | Crumbs.cs:337-383 | after a size request, every listed crumb has a cached request, and the allocation reads back exactly the widths the children asked for, also when a crumb is listed twice |
| Manico.Crumbs.OnMotionNotify | Crumbs.cs:423-444 | hover becomes the crumb `Layout.FirstHit` stops at, with a redraw only if it changed, and the event is handled; with no hit, hover becomes null, a redraw is queued and the event is passed on; a scan that reaches a crumb without a cached rectangle throws `KeyNotFoundException` and changes nothing |
| Manico.Crumbs.OnLeaveNotify | Crumbs.cs:446-454 | a normal crossing clears hover and queues a redraw; a crossing caused by a grab changes nothing |
| Manico.Crumbs.OnButtonRelease | Crumbs.cs:456-463 | the hover crumb, if any, becomes active through the `Active` setter; with no hover nothing changes |
| Manico.Crumbs.OnScroll | Crumbs.cs:465-483 | the active crumb moves as `Layout.Scroll` says, through the `Active` setter; the index-out-of-range case is reported and changes nothing |
| Manico.Crumbs.OnExpose | Crumbs.cs:171-269 | one `Layout.PaintSegment` per listed crumb, in order, from its cached rectangle, its position, and whether it is the hover or the active crumb |

## Left out

- Window realization: `OnRealized` keeps only the realized flag and the
  `PrepareCrumb` loop. The GDK window it creates, and the style attachment,
  are window-system plumbing.
- `PrepareCrumb` and `UnprepareCrumb`: setting the child widget's parent
  and parent window, realizing it and unrealizing it are toolkit calls.
  Only the back-reference is modelled.
- Cairo and GTK painting: `DrawBorder`, fills, strokes, line widths, style
  colours, `PropagateExpose` and the gradients built in `OnSizeAllocated`.
  `OnExpose` returns what it would paint: corners, brush, outline and inner
  path, and separator strokes.
- `OnStyleSet` is left out. So is the floating-point division in
  `ToCairoColor`; only the integer `>> 8` channel extraction is modelled.
- The toplevel `BorderWidth` transposition is left out. It shifts only the
  x and y used by the border and the gradients, and the cached rectangles
  use only the allocated height.
- `crumb.Widget.SizeAllocate` in the layout loop hands the rectangle to the
  child widget, which is a toolkit call.
- Markup parsing in the `Crumb(string)` constructor is the `plainText`
  parameter of `Crumb.FromMarkup`.
- Multicast event dispatch: `Changed` and `Clicked` are counts of
  registered handlers and of times raised. Handlers cannot be removed.
  `QueueDraw` and `QueueResize` are counts.
- The return value that the event handlers take from the `base` handler
  when they do not handle the event themselves.
- Manico.Crumbs.OnSizeRequested, Manico.Crumbs.OnSizeAllocated and
  Manico.Crumbs.OnExpose: all integer arithmetic is on unbounded integers.
  The model does not capture 32-bit overflow of the width sum, of the x
  accumulator, of `alloc.Height - (y * 2)` or of the padding of each
  crumb's area before it is painted.
- Null crumbs and null widgets: the list holds crumb references, and
  `Append(null)` is not modelled. A crumb's `Widget` setter accepts null,
  after which `Label` is empty and the next size request throws on
  `crumb.Widget.SizeRequest()`; the `Widget` datatype has no null value,
  so neither that state nor that exception is modelled.
- Manico.Crumbs.OnSizeAllocated and Manico.Crumbs.OnExpose: the
  `KeyNotFoundException` of a dictionary read for a crumb without a cached
  entry is a precondition, not an error path. The motion handler models it
  as an error path.
- The `CrumbList` read-only view and the `Hover` getter are plain field
  reads (`crumbs`, `hover`).
- The `RoundedRectangle` overload without `corners` is
  `Geometry.RoundedRectangle` with `AllCorners`.
- EntryPoint.cs is not part of this model. It is demo wiring that uses
  `Gtk.Container.Add`.
