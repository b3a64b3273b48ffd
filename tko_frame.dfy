/** Geometry of the frame, toplevel and labelframe widgets of the tko
 *  object system: clamping of the configuration, the label's requested
 *  size, the internal border, the placement of the label inside the
 *  window, the redraw-pending flag and the painting of a background image,
 *  tiled or centred.  Window sizes, the font's measurement of the label
 *  text and the mapped state of the window are inputs. */
module TkoFrame {
  import opened Wrappers

  /** Extra pixels around the label text, on each side. */
  const LabelSpacing: int := 1
  /** Gap between a visible border and the label. */
  const LabelMargin: int := 4


  datatype FrameType = PlainFrame | Toplevel | Labelframe

  /** The values of -labelanchor, in the order of their enumeration. */
  datatype Anchor = E | EN | ES | N | NE | NW | S | SE | SW | W | WN | WS

  /** The anchors from N to SW of the enumeration: the label sits on the
   *  top or the bottom edge. */
  predicate OnTopOrBottom(a: Anchor)
  {
    a == N || a == NE || a == NW || a == S || a == SE || a == SW
  }

  datatype Size = Size(width: int, height: int)

  /** What the label shows: nothing, a text of the given measured size, or
   *  a window with the given requested size. */
  datatype LabelSource = NoLabel | TextLabel(measured: Size) | WindowLabel(requested: Size)

  /** The label a labelframe shows: a label window takes precedence over a
   *  text. */
  function LabelOf(text: Option<Size>, window: Option<Size>): (l: LabelSource)
    ensures window.Some? ==> l == WindowLabel(window.value)
    ensures window.None? && text.Some? ==> l == TextLabel(text.value)
    ensures l.NoLabel? <==> text.None? && window.None?
  {
    if window.Some? then WindowLabel(window.value)
    else if text.Some? then TextLabel(text.value)
    else NoLabel
  }

  /** A frame cannot both be a container and be embedded with -use; the
   *  construction error, if any. */
  function ContainmentError(isContainer: bool, useThis: Option<string>): (err: Option<string>)
    ensures err.Some? <==> isContainer && useThis.Some?
  {
    if isContainer && useThis.Some? then
      Some("windows cannot have both the -use and the -container option set")
    else None
  }

  /** A negative pixel option is raised to 0. */
  function ClampNonNegative(v: int): (r: int)
    ensures r >= 0 && r >= v
    ensures v >= 0 ==> r == v
    ensures v < 0 ==> r == 0
  {
    if v < 0 then 0 else v
  }

  /** The size the label asks for before the border is taken into
   *  account: the text plus spacing, or the label window's request. */
  function LabelBase(l: LabelSource): Size
  {
    match l
    case NoLabel => Size(0, 0)
    case TextLabel(m) => Size(m.width + 2 * LabelSpacing, m.height + 2 * LabelSpacing)
    case WindowLabel(r) => r
  }

  /** The label's requested size: the side across the border it sits on
   *  is raised to at least the border width. */
  function LabelRequest(l: LabelSource, a: Anchor, bw: int): (r: Size)
    ensures OnTopOrBottom(a) ==> r.width == LabelBase(l).width &&
                                 r.height >= bw && r.height >= LabelBase(l).height &&
                                 (r.height == bw || r.height == LabelBase(l).height)
    ensures !OnTopOrBottom(a) ==> r.height == LabelBase(l).height &&
                                  r.width >= bw && r.width >= LabelBase(l).width &&
                                  (r.width == bw || r.width == LabelBase(l).width)
  {
    var b := LabelBase(l);
    if OnTopOrBottom(a) then
      Size(b.width, if b.height < bw then bw else b.height)
    else
      Size(if b.width < bw then bw else b.width, b.height)
  }

  datatype Side = Left | Right | Top | Bottom

  /** The side of the window a label with this anchor is drawn on. */
  function LabelSide(a: Anchor): Side
  {
    match a
    case E | EN | ES => Right
    case N | NE | NW => Top
    case S | SE | SW => Bottom
    case _ => Left
  }

  datatype Border = Border(left: int, right: int, top: int, bottom: int)

  function SideOf(b: Border, s: Side): int
  {
    match s
    case Left => b.left
    case Right => b.right
    case Top => b.top
    case Bottom => b.bottom
  }

  /** The border of a side without a label: 3-D border, highlight ring and
   *  the padding of that axis. */
  function PlainSide(s: Side, bw: int, hw: int, padX: int, padY: int): int
  {
    if s == Left || s == Right then bw + hw + padX else bw + hw + padY
  }

  /** The internal border of the window: every side is plain except the
   *  label's side, which is widened by the label's request less the 3-D
   *  border it replaces. */
  function InternalBorder(bw: int, hw: int, padX: int, padY: int, hasLabel: bool, a: Anchor, req: Size): Border
  {
    var plain := Border(bw + hw + padX, bw + hw + padX, bw + hw + padY, bw + hw + padY);
    if !hasLabel then plain
    else
      match LabelSide(a)
      case Right => plain.(right := plain.right + req.width - bw)
      case Top => plain.(top := plain.top + req.height - bw)
      case Bottom => plain.(bottom := plain.bottom + req.height - bw)
      case Left => plain.(left := plain.left + req.width - bw)
  }

  /** Side by side: a side other than the label's is plain; the label's
   *  side gains the label's request across that edge less the border. */
  lemma BorderSides(bw: int, hw: int, padX: int, padY: int, hasLabel: bool, a: Anchor, req: Size, s: Side)
    ensures !hasLabel || s != LabelSide(a) ==>
              SideOf(InternalBorder(bw, hw, padX, padY, hasLabel, a, req), s) == PlainSide(s, bw, hw, padX, padY)
    ensures hasLabel && s == LabelSide(a) ==>
              SideOf(InternalBorder(bw, hw, padX, padY, hasLabel, a, req), s) ==
              PlainSide(s, bw, hw, padX, padY) + (if s == Top || s == Bottom then req.height else req.width) - bw
  {
  }

  /** Because the label's request is at least the border width, no side
   *  of the internal border is thinner than the plain border, and the
   *  label side holds the highlight, the padding and the whole label. */
  lemma BorderAtLeastPlain(l: LabelSource, a: Anchor, bw: int, hw: int, padX: int, padY: int, s: Side)
    ensures var req := LabelRequest(l, a, bw);
            var b := InternalBorder(bw, hw, padX, padY, true, a, req);
            SideOf(b, s) >= PlainSide(s, bw, hw, padX, padY) &&
            (s == LabelSide(a) ==>
               SideOf(b, s) - (hw + (if s == Left || s == Right then padX else padY)) >=
               (if s == Top || s == Bottom then LabelBase(l).height else LabelBase(l).width))
  {
    var req := LabelRequest(l, a, bw);
    assert OnTopOrBottom(a) <==> LabelSide(a) == Top || LabelSide(a) == Bottom;
  }

  /** The room around the label along its edge: the highlight ring and,
   *  with a visible border, the border and the margin, on both ends. */
  function LabelPadding(hw: int, bw: int): int
  {
    2 * (hw + (if bw > 0 then bw + LabelMargin else 0))
  }

  /** The minimum size a labelframe requests so that its label fits. */
  function MinimumRequest(req: Size, a: Anchor, hw: int, bw: int): (r: Size)
    ensures hw >= 0 && bw >= 0 ==> r.width >= req.width && r.height >= req.height
    ensures OnTopOrBottom(a) ==> r.width == req.width + LabelPadding(hw, bw) && r.height == req.height + bw + hw
    ensures !OnTopOrBottom(a) ==> r.height == req.height + LabelPadding(hw, bw) && r.width == req.width + bw + hw
  {
    if OnTopOrBottom(a) then Size(req.width + LabelPadding(hw, bw), req.height + bw + hw)
    else Size(req.width + bw + hw, req.height + LabelPadding(hw, bw))
  }

  /** The room the label has in a window of size `win`: along its edge, the
   *  window less the padding but at least 1; across, the whole window. */
  function Available(win: Size, a: Anchor, hw: int, bw: int): (r: Size)
    ensures OnTopOrBottom(a) ==> r.width >= 1 && r.height == win.height
    ensures !OnTopOrBottom(a) ==> r.height >= 1 && r.width == win.width
    ensures OnTopOrBottom(a) && win.width - LabelPadding(hw, bw) >= 1 ==> r.width == win.width - LabelPadding(hw, bw)
    ensures !OnTopOrBottom(a) && win.height - LabelPadding(hw, bw) >= 1 ==> r.height == win.height - LabelPadding(hw, bw)
  {
    var p := LabelPadding(hw, bw);
    if OnTopOrBottom(a) then Size(if win.width - p < 1 then 1 else win.width - p, win.height)
    else Size(win.width, if win.height - p < 1 then 1 else win.height - p)
  }

  /** The label box's size: the request, cut down to the room available. */
  function LabelBoxSize(req: Size, avail: Size): (r: Size)
    ensures r.width <= avail.width && r.height <= avail.height
    ensures req.width <= avail.width ==> r.width == req.width
    ensures req.width > avail.width ==> r.width == avail.width
    ensures req.height <= avail.height ==> r.height == req.height
    ensures req.height > avail.height ==> r.height == avail.height
  {
    Size(if req.width > avail.width then avail.width else req.width,
         if req.height > avail.height then avail.height else req.height)
  }

  /** Where something of size `sz` is placed for the anchor in a window of
   *  size `win`: across the edge at the highlight ring, along the edge at
   *  the padded start, centred, or at the padded end. */
  function LabelPlace(sz: Size, win: Size, a: Anchor, hw: int, bw: int): (r: (int, int))
  {
    var otherWidth := win.width - sz.width;
    var otherHeight := win.height - sz.height;
    var inner := hw + (if bw > 0 then bw + LabelMargin else 0);
    var x :=
      match a
      case E | EN | ES => otherWidth - hw
      case NW | SW => inner
      case N | S => CDiv(otherWidth, 2)
      case NE | SE => otherWidth - inner
      case _ => hw;
    var y :=
      match a
      case N | NE | NW => hw
      case S | SE | SW => otherHeight - hw
      case EN | WN => inner
      case E | W => CDiv(otherHeight, 2)
      case _ => otherHeight - inner;
    (x, y)
  }

  /** The label box fits, along its edge, inside the window whenever the
   *  window leaves room for the padding. */
  lemma LabelBoxInside(req: Size, win: Size, a: Anchor, hw: int, bw: int)
    requires hw >= 0 && bw >= 0 && req.width >= 0 && req.height >= 0
    requires win.width - LabelPadding(hw, bw) >= 1 && win.height - LabelPadding(hw, bw) >= 1
    ensures var box := LabelBoxSize(req, Available(win, a, hw, bw));
            var place := LabelPlace(box, win, a, hw, bw);
            (OnTopOrBottom(a) ==> 0 <= place.0 && place.0 + box.width <= win.width) &&
            (!OnTopOrBottom(a) ==> 0 <= place.1 && place.1 + box.height <= win.height)
  {
  }

  /** The label text is placed by its requested size; when the request
   *  fits, text and box share their position. */
  lemma TextAtBoxWhenFits(req: Size, win: Size, a: Anchor, hw: int, bw: int)
    requires req.width <= Available(win, a, hw, bw).width && req.height <= Available(win, a, hw, bw).height
    ensures LabelPlace(LabelBoxSize(req, Available(win, a, hw, bw)), win, a, hw, bw) == LabelPlace(req, win, a, hw, bw)
  {
  }

  /** One call that paints (part of) the background image: the source
   *  rectangle inside the image and where it goes in the window. */
  datatype Redraw = Redraw(srcX: int, srcY: int, width: int, height: int, dstX: int, dstY: int)

  /** The tiles along one axis from `start` to `end`: positions `step`
   *  apart, each as wide as the image except the last, which is cut at
   *  `end`. */
  function Tiles(start: int, end: int, step: nat): (r: seq<(int, int)>)
    requires step > 0
    decreases end - start
  {
    if start >= end then []
    else [(start, if start + step > end then end - start else step)] + Tiles(start + step, end, step)
  }

  /** The tiles start at `start`, follow each other without gap or
   *  overlap, are at most `step` wide and fill exactly up to `end`. */
  lemma {:induction false} TilesCover(start: int, end: int, step: nat)
    requires step > 0
    ensures var t := Tiles(start, end, step);
            (start < end <==> |t| > 0) &&
            (|t| > 0 ==> t[0].0 == start && t[|t| - 1].0 + t[|t| - 1].1 == end) &&
            (forall i :: 0 <= i < |t| ==> 0 < t[i].1 <= step && start <= t[i].0 && t[i].0 + t[i].1 <= end) &&
            (forall i :: 0 <= i < |t| - 1 ==> t[i + 1].0 == t[i].0 + t[i].1)
    decreases end - start
  {
    if start < end {
      TilesCover(start + step, end, step);
    }
  }

  /** The sum of the tile widths. */
  function Covered(t: seq<(int, int)>): int
  {
    if |t| == 0 then 0 else t[0].1 + Covered(t[1..])
  }

  /** The tiles' widths add up to the length of the interval. */
  lemma {:induction false} TilesSum(start: int, end: int, step: nat)
    requires step > 0
    ensures Covered(Tiles(start, end, step)) == if start < end then end - start else 0
    decreases end - start
  {
    if start < end {
      TilesSum(start + step, end, step);
      assert Tiles(start, end, step)[1..] == Tiles(start + step, end, step);
    }
  }

  /** The redraws of one column (x, w) of tiles, one per row, top down. */
  function ColumnDraws(col: (int, int), rows: seq<(int, int)>): seq<Redraw>
  {
    if |rows| == 0 then [] else [Redraw(0, 0, col.1, rows[0].1, col.0, rows[0].0)] + ColumnDraws(col, rows[1..])
  }

  /** A column holds one redraw per row: the column's x and width with the
   *  row's y and height. */
  lemma {:induction false} ColumnDrawsAt(col: (int, int), rows: seq<(int, int)>)
    ensures |ColumnDraws(col, rows)| == |rows|
    ensures forall j :: 0 <= j < |rows| ==>
              ColumnDraws(col, rows)[j] == Redraw(0, 0, col.1, rows[j].1, col.0, rows[j].0)
  {
    if |rows| > 0 {
      ColumnDrawsAt(col, rows[1..]);
    }
  }

  /** The redraws of a whole tiling, column by column. */
  function GridDraws(cols: seq<(int, int)>, rows: seq<(int, int)>): seq<Redraw>
  {
    if |cols| == 0 then [] else ColumnDraws(cols[0], rows) + GridDraws(cols[1..], rows)
  }

  /** Column i's redraws come after those of the columns before it and
   *  before those of the columns after it. */
  lemma {:induction false} GridSplit(cols: seq<(int, int)>, rows: seq<(int, int)>, i: nat)
    requires i < |cols|
    ensures GridDraws(cols, rows) ==
            GridDraws(cols[..i], rows) + ColumnDraws(cols[i], rows) + GridDraws(cols[i + 1..], rows)
  {
    if i == 0 {
      assert cols[..0] == [];
    } else {
      GridSplit(cols[1..], rows, i - 1);
      assert cols[1..][..i - 1] == cols[..i][1..];
      assert cols[1..][i - 1] == cols[i];
      assert cols[1..][i..] == cols[i + 1..];
      assert GridDraws(cols[..i], rows) == ColumnDraws(cols[0], rows) + GridDraws(cols[..i][1..], rows);
    }
  }

  /** The interior of a window of width (or height) `win` inside a ring
   *  of `bw` pixels on each side. */
  function Interior(win: int, bw: int): int
  {
    win - 2 * bw
  }

  /** The centred background image: the part of the image that fits the
   *  interior, centred on each axis. */
  function Centred(win: Size, bw: int, img: Size): (r: Redraw)
    ensures r.width == if Interior(win.width, bw) > img.width then img.width else Interior(win.width, bw)
    ensures r.height == if Interior(win.height, bw) > img.height then img.height else Interior(win.height, bw)
    ensures Interior(win.width, bw) > img.width ==> r.srcX == 0
    ensures Interior(win.height, bw) > img.height ==> r.srcY == 0
    ensures Interior(win.width, bw) <= img.width ==> r.dstX == bw
    ensures Interior(win.height, bw) <= img.height ==> r.dstY == bw
  {
    var width := Interior(win.width, bw);
    var height := Interior(win.height, bw);
    var wide := width > img.width;
    var tall := height > img.height;
    var x := if wide then 0 else CDiv(img.width - width, 2);
    var xOff := if wide then CDiv(win.width - img.width, 2) else bw;
    var w := if wide then img.width else width;
    var y := if tall then 0 else CDiv(img.height - height, 2);
    var yOff := if tall then CDiv(win.height - img.height, 2) else bw;
    var h := if tall then img.height else height;
    Redraw(x, y, w, h, xOff, yOff)
  }

  /** A smaller image lies inside the interior with equal margins to one
   *  pixel; of a larger image the middle part is shown, equal amounts cut
   *  off each end to one pixel. */
  lemma CentredInside(win: Size, bw: int, img: Size)
    requires bw >= 0 && img.width >= 0 && img.height >= 0
    requires Interior(win.width, bw) >= 0 && Interior(win.height, bw) >= 0
    ensures var r := Centred(win, bw, img);
            bw <= r.dstX && r.dstX + r.width <= win.width - bw &&
            bw <= r.dstY && r.dstY + r.height <= win.height - bw &&
            0 <= r.srcX && r.srcX + r.width <= img.width &&
            0 <= r.srcY && r.srcY + r.height <= img.height &&
            (r.dstX - bw) - (win.width - bw - r.dstX - r.width) in {0, -1} &&
            r.srcX - (img.width - r.srcX - r.width) in {0, -1}
  {
  }

  /** The tiling loop of one axis as written, run for at most `fuel`
   *  steps: the position advances by the image size, so an image of size
   *  0 never reaches the end; None when the steps run out. */
  function TilesAsWritten(start: int, end: int, step: nat, fuel: nat): (r: Option<seq<(int, int)>>)
    decreases fuel
  {
    if start >= end then Some([])
    else if fuel == 0 then None
    else
      var rest := TilesAsWritten(start + step, end, step, fuel - 1);
      if rest.None? then None
      else Some([(start, if start + step > end then end - start else step)] + rest.value)
  }

  /** With an empty image and a non-empty interior the loop never ends,
   *  however many steps it is given. */
  lemma {:induction false} EmptyImageTilesForever(start: int, end: int, fuel: nat)
    requires start < end
    ensures TilesAsWritten(start, end, 0, fuel).None?
    decreases fuel
  {
    if fuel > 0 {
      EmptyImageTilesForever(start, end, fuel - 1);
    }
  }

  /** With a non-empty image the loop as written ends within end - start
   *  steps and yields the tiles. */
  lemma {:induction false} TilesAsWrittenAgrees(start: int, end: int, step: nat, fuel: nat)
    requires step > 0 && fuel >= end - start
    ensures TilesAsWritten(start, end, step, fuel) == Some(Tiles(start, end, step))
    decreases end - start
  {
    if start < end {
      TilesAsWrittenAgrees(start + step, end, step, fuel - 1);
    }
  }

  /** One step of the row loop: the first tile of the column, then the
   *  rest. */
  lemma RowStep(all: seq<Redraw>, done: seq<Redraw>, col: (int, int), y: int, h: int, end: int, step: nat)
    requires step > 0 && y < end && h == (if y + step > end then end - y else step)
    requires all == done + ColumnDraws(col, Tiles(y, end, step))
    ensures all == (done + [Redraw(0, 0, col.1, h, col.0, y)]) + ColumnDraws(col, Tiles(y + step, end, step))
  {
    var t := Tiles(y, end, step);
    assert t[1..] == Tiles(y + step, end, step);
  }

  /** One step of the column loop: the first column of tiles, then the
   *  rest. */
  lemma ColumnStep(all: seq<Redraw>, done: seq<Redraw>, column: seq<Redraw>, x: int, w: int, end: int, step: nat,
                   rows: seq<(int, int)>)
    requires step > 0 && x < end && w == (if x + step > end then end - x else step)
    requires all == done + GridDraws(Tiles(x, end, step), rows) && column == ColumnDraws((x, w), rows)
    ensures all == (done + column) + GridDraws(Tiles(x + step, end, step), rows)
  {
    var t := Tiles(x, end, step);
    assert t[1..] == Tiles(x + step, end, step);
  }

  /** Paints one column of tiles at (x, w), row after row from the top of
   *  the interior. */
  method DrawColumn(x: int, w: int, bw: int, height: int, imgHeight: nat, ghost rows: seq<(int, int)>)
    returns (draws: seq<Redraw>)
    requires imgHeight > 0 && rows == Tiles(bw, height + bw, imgHeight)
    ensures draws == ColumnDraws((x, w), rows)
  {
    ghost var all := ColumnDraws((x, w), rows);
    draws := [];
    var y := bw;
    while y < height + bw
      invariant all == draws + ColumnDraws((x, w), Tiles(y, height + bw, imgHeight))
      decreases height + bw - y
    {
      var h := imgHeight;
      if y - bw + imgHeight > height {
        h := (height + bw) - y;
      }
      RowStep(all, draws, (x, w), y, h, height + bw, imgHeight);
      draws := draws + [Redraw(0, 0, w, h, x, y)];
      y := y + imgHeight;
    }
  }

  /** Paints the background image tiled over the interior of the window,
   *  starting at the inner edge of the border and highlight ring; an
   *  empty image paints nothing. */
  method DrawTiled(win: Size, hw: int, bw: int, img: Size) returns (draws: seq<Redraw>)
    requires img.width >= 0 && img.height >= 0
    ensures img.width == 0 || img.height == 0 ==> draws == []
    ensures img.width > 0 && img.height > 0 ==>
              var ring := hw + bw;
              draws == GridDraws(Tiles(ring, Interior(win.width, ring) + ring, img.width),
                                 Tiles(ring, Interior(win.height, ring) + ring, img.height))
  {
    if img.width == 0 || img.height == 0 {
      return [];
    }
    var ring := hw + bw;
    draws := DrawColumns(ring, win.width - 2 * ring, win.height - 2 * ring, img.width, img.height);
  }

  /** The column loop of the tiling: one column of tiles per step, the
   *  last one cut at the right edge of the interior. */
  method DrawColumns(ring: int, width: int, height: int, imgWidth: nat, imgHeight: nat) returns (draws: seq<Redraw>)
    requires imgWidth > 0 && imgHeight > 0
    ensures draws == GridDraws(Tiles(ring, width + ring, imgWidth), Tiles(ring, height + ring, imgHeight))
  {
    ghost var rows := Tiles(ring, height + ring, imgHeight);
    ghost var all := GridDraws(Tiles(ring, width + ring, imgWidth), rows);
    draws := [];
    var x := ring;
    while x - ring < width
      invariant all == draws + GridDraws(Tiles(x, width + ring, imgWidth), rows)
      decreases width + ring - x
    {
      var w := imgWidth;
      if x - ring + imgWidth > width {
        w := (width + ring) - x;
      }
      var column := DrawColumn(x, w, ring, height, imgHeight, rows);
      ColumnStep(all, draws, column, x, w, width + ring, imgWidth, rows);
      draws := draws + column;
      x := x + imgWidth;
    }
  }

  /** The events a frame reacts to. */
  datatype Event = Expose(count: nat) | ConfigureNotify | FocusIn(inferior: bool) | FocusOut(inferior: bool)
                 | ActivateNotify | DestroyNotify | OtherEvent

  /** The state of one frame widget that its event handlers and
   *  configuration update.  `queued` counts the idle redraws scheduled and
   *  not yet run. */
  class Frame {
    const kind: FrameType
    var highlightWidth: int
    var borderWidth: int
    var padX: int
    var padY: int
    var width: int
    var height: int
    var anchor: Anchor
    var source: LabelSource
    var labelReq: Size
    var border: Border
    var minRequest: Option<Size>
    var geometryRequest: Option<Size>
    var labelBox: Size
    var labelBoxAt: (int, int)
    var labelTextAt: (int, int)
    /** The two bits of the flags word: REDRAW_PENDING (1), an idle
     *  redraw is queued, and GOT_FOCUS (4), the window has the focus. */
    var redrawPending: bool
    var gotFocus: bool
    var queued: nat

    /** A redraw is queued exactly when the pending bit is set, and never
     *  more than one. */
    predicate Valid()
      reads this
    {
      queued == (if redrawPending then 1 else 0)
    }

    constructor (kind: FrameType)
      ensures this.kind == kind && Valid()
      ensures !redrawPending && !gotFocus && queued == 0
      ensures highlightWidth == 0 && borderWidth == 0 && padX == 0 && padY == 0 && width == 0 && height == 0
      ensures anchor == NW && source == NoLabel && labelReq == Size(0, 0)
      ensures border == Border(0, 0, 0, 0) && minRequest == None
      ensures geometryRequest == if kind == Toplevel then Some(Size(200, 200)) else None
    {
      this.kind := kind;
      highlightWidth := 0;
      borderWidth := 0;
      padX := 0;
      padY := 0;
      width := 0;
      height := 0;
      anchor := NW;
      source := NoLabel;
      labelReq := Size(0, 0);
      border := Border(0, 0, 0, 0);
      minRequest := None;
      geometryRequest := if kind == Toplevel then Some(Size(200, 200)) else None;
      labelBox := Size(0, 0);
      labelBoxAt := (0, 0);
      labelTextAt := (0, 0);
      redrawPending := false;
      gotFocus := false;
      queued := 0;
    }

    /** The "redraw" step: schedules an idle redraw unless one is pending,
     *  then marks one pending. */
    method ScheduleRedraw()
      requires Valid()
      modifies this`redrawPending, this`queued
      ensures Valid() && redrawPending && queued == 1
      ensures old(redrawPending) ==> queued == old(queued)
    {
      if !redrawPending {
        queued := queued + 1;
      }
      redrawPending := true;
    }

    /** The idle redraw runs: the pending bit is cleared first. */
    method Display()
      requires Valid() && queued > 0
      modifies this`redrawPending, this`queued
      ensures Valid() && !redrawPending && queued == 0
    {
      redrawPending := false;
      queued := queued - 1;
    }

    /** The background image changed: a mapped frame is redrawn. */
    method BgImageChanged(mapped: bool)
      requires Valid()
      modifies this`redrawPending, this`queued
      ensures Valid()
      ensures mapped ==> redrawPending && queued == 1
      ensures !mapped ==> redrawPending == old(redrawPending) && queued == old(queued)
    {
      if mapped {
        ScheduleRedraw();
      }
    }

    /** The label box and the text position, from the window's size. */
    method ComputeGeometry(win: Size)
      modifies this`labelBox, this`labelBoxAt, this`labelTextAt
      ensures kind != Labelframe || source.NoLabel? ==>
                labelBox == old(labelBox) && labelBoxAt == old(labelBoxAt) && labelTextAt == old(labelTextAt)
      ensures kind == Labelframe && !source.NoLabel? ==>
                labelBox == LabelBoxSize(labelReq, Available(win, anchor, highlightWidth, borderWidth)) &&
                labelBoxAt == LabelPlace(labelBox, win, anchor, highlightWidth, borderWidth) &&
                labelTextAt == LabelPlace(labelReq, win, anchor, highlightWidth, borderWidth)
    {
      if kind != Labelframe || source.NoLabel? {
        return;
      }
      labelBox := LabelBoxSize(labelReq, Available(win, anchor, highlightWidth, borderWidth));
      labelBoxAt := LabelPlace(labelBox, win, anchor, highlightWidth, borderWidth);
      labelTextAt := LabelPlace(labelReq, win, anchor, highlightWidth, borderWidth);
    }

    /** Recomputes the label request, the internal border, the label
     *  placement and the size requests, and redraws a mapped frame. */
    method WorldChanged(mapped: bool, win: Size)
      requires Valid()
      modifies this`labelReq, this`border, this`labelBox, this`labelBoxAt, this`labelTextAt,
               this`minRequest, this`geometryRequest, this`redrawPending, this`queued
      ensures Valid()
      ensures kind == Labelframe ==> labelReq == LabelRequest(source, anchor, borderWidth)
      ensures kind != Labelframe ==> labelReq == old(labelReq)
      ensures border == InternalBorder(borderWidth, highlightWidth, padX, padY,
                                       kind == Labelframe && !source.NoLabel?, anchor, labelReq)
      ensures kind == Labelframe ==> minRequest == Some(MinimumRequest(labelReq, anchor, highlightWidth, borderWidth))
      ensures kind != Labelframe ==> minRequest == old(minRequest)
      ensures geometryRequest == if width > 0 || height > 0 then Some(Size(width, height)) else old(geometryRequest)
      ensures kind == Labelframe && !source.NoLabel? ==>
                labelBox == LabelBoxSize(labelReq, Available(win, anchor, highlightWidth, borderWidth)) &&
                labelBoxAt == LabelPlace(labelBox, win, anchor, highlightWidth, borderWidth) &&
                labelTextAt == LabelPlace(labelReq, win, anchor, highlightWidth, borderWidth)
      ensures mapped ==> redrawPending && queued == 1
      ensures !mapped ==> redrawPending == old(redrawPending) && queued == old(queued)
    {
      Relayout(win);
      if mapped {
        ScheduleRedraw();
      }
    }

    /** The label size, internal border, label geometry and requests of
     *  the current configuration. */
    method Relayout(win: Size)
      modifies this`labelReq, this`border, this`labelBox, this`labelBoxAt, this`labelTextAt,
               this`minRequest, this`geometryRequest
      ensures kind == Labelframe ==> labelReq == LabelRequest(source, anchor, borderWidth)
      ensures kind != Labelframe ==> labelReq == old(labelReq)
      ensures border == InternalBorder(borderWidth, highlightWidth, padX, padY,
                                       kind == Labelframe && !source.NoLabel?, anchor, labelReq)
      ensures kind == Labelframe ==> minRequest == Some(MinimumRequest(labelReq, anchor, highlightWidth, borderWidth))
      ensures kind != Labelframe ==> minRequest == old(minRequest)
      ensures geometryRequest == if width > 0 || height > 0 then Some(Size(width, height)) else old(geometryRequest)
      ensures kind == Labelframe && !source.NoLabel? ==>
                labelBox == LabelBoxSize(labelReq, Available(win, anchor, highlightWidth, borderWidth)) &&
                labelBoxAt == LabelPlace(labelBox, win, anchor, highlightWidth, borderWidth) &&
                labelTextAt == LabelPlace(labelReq, win, anchor, highlightWidth, borderWidth)
    {
      ComputeLabelAndBorder();
      ComputeGeometry(win);
      ComputeRequests();
    }

    /** The label request of a labelframe and the internal border. */
    method ComputeLabelAndBorder()
      modifies this`labelReq, this`border
      ensures kind == Labelframe ==> labelReq == LabelRequest(source, anchor, borderWidth)
      ensures kind != Labelframe ==> labelReq == old(labelReq)
      ensures border == InternalBorder(borderWidth, highlightWidth, padX, padY,
                                       kind == Labelframe && !source.NoLabel?, anchor, labelReq)
    {
      if kind == Labelframe {
        labelReq := LabelRequest(source, anchor, borderWidth);
      }
      border := InternalBorder(borderWidth, highlightWidth, padX, padY,
                               kind == Labelframe && !source.NoLabel?, anchor, labelReq);
    }

    /** The minimum size of a labelframe and the -width/-height request. */
    method ComputeRequests()
      modifies this`minRequest, this`geometryRequest
      ensures kind == Labelframe ==> minRequest == Some(MinimumRequest(labelReq, anchor, highlightWidth, borderWidth))
      ensures kind != Labelframe ==> minRequest == old(minRequest)
      ensures geometryRequest == if width > 0 || height > 0 then Some(Size(width, height)) else old(geometryRequest)
    {
      if kind == Labelframe {
        minRequest := Some(MinimumRequest(labelReq, anchor, highlightWidth, borderWidth));
      }
      if width > 0 || height > 0 {
        geometryRequest := Some(Size(width, height));
      }
    }

    /** The configure method: negative highlight and padding become 0,
     *  then the geometry is recomputed. */
    method Configure(mapped: bool, win: Size)
      requires Valid()
      modifies this`highlightWidth, this`padX, this`padY,
               this`labelReq, this`border, this`labelBox, this`labelBoxAt, this`labelTextAt,
               this`minRequest, this`geometryRequest, this`redrawPending, this`queued
      ensures Valid()
      ensures highlightWidth == ClampNonNegative(old(highlightWidth))
      ensures padX == ClampNonNegative(old(padX)) && padY == ClampNonNegative(old(padY))
      ensures kind == Labelframe ==> labelReq == LabelRequest(source, anchor, borderWidth)
      ensures kind != Labelframe ==> labelReq == old(labelReq)
      ensures border == InternalBorder(borderWidth, highlightWidth, padX, padY,
                                       kind == Labelframe && !source.NoLabel?, anchor, labelReq)
      ensures kind == Labelframe ==> minRequest == Some(MinimumRequest(labelReq, anchor, highlightWidth, borderWidth))
      ensures kind != Labelframe ==> minRequest == old(minRequest)
      ensures geometryRequest == if width > 0 || height > 0 then Some(Size(width, height)) else old(geometryRequest)
      ensures kind == Labelframe && !source.NoLabel? ==>
                labelBox == LabelBoxSize(labelReq, Available(win, anchor, highlightWidth, borderWidth)) &&
                labelBoxAt == LabelPlace(labelBox, win, anchor, highlightWidth, borderWidth) &&
                labelTextAt == LabelPlace(labelReq, win, anchor, highlightWidth, borderWidth)
      ensures mapped ==> redrawPending && queued == 1
      ensures !mapped ==> redrawPending == old(redrawPending) && queued == old(queued)
    {
      if highlightWidth < 0 {
        highlightWidth := 0;
      }
      if padX < 0 {
        padX := 0;
      }
      if padY < 0 {
        padY := 0;
      }
      WorldChanged(mapped, win);
    }

    /** Reacts to a window event: exposure, resizing and focus changes
     *  with a highlight ring redraw the frame. */
    method HandleEvent(ev: Event, win: Size)
      requires Valid()
      modifies this`labelBox, this`labelBoxAt, this`labelTextAt, this`redrawPending, this`gotFocus, this`queued
      ensures Valid()
      ensures ev.FocusIn? && !ev.inferior ==> gotFocus
      ensures ev.FocusOut? && !ev.inferior ==> !gotFocus
      ensures (ev == Expose(0) || ev.ConfigureNotify? ||
               ((ev.FocusIn? || ev.FocusOut?) && !ev.inferior && highlightWidth > 0)) ==>
                redrawPending && queued == 1
      ensures ev.DestroyNotify? || ev.ActivateNotify? || ev.OtherEvent? || (ev.Expose? && ev.count != 0) ==>
                redrawPending == old(redrawPending) && queued == old(queued)
      ensures (ev.FocusIn? || ev.FocusOut?) && (ev.inferior || highlightWidth <= 0) ==>
                redrawPending == old(redrawPending) && queued == old(queued)
      ensures !((ev.FocusIn? || ev.FocusOut?) && !ev.inferior) ==> gotFocus == old(gotFocus)
      ensures ev.ConfigureNotify? && kind == Labelframe && !source.NoLabel? ==>
                labelBox == LabelBoxSize(labelReq, Available(win, anchor, highlightWidth, borderWidth)) &&
                labelBoxAt == LabelPlace(labelBox, win, anchor, highlightWidth, borderWidth) &&
                labelTextAt == LabelPlace(labelReq, win, anchor, highlightWidth, borderWidth)
      ensures !(ev.ConfigureNotify? && kind == Labelframe && !source.NoLabel?) ==>
                labelBox == old(labelBox) && labelBoxAt == old(labelBoxAt) && labelTextAt == old(labelTextAt)
    {
      var redraw := false;
      match ev {
        case Expose(count) =>
          redraw := count == 0;
        case ConfigureNotify =>
          ComputeGeometry(win);
          redraw := true;
        case FocusIn(inferior) =>
          if !inferior {
            gotFocus := true;
            redraw := highlightWidth > 0;
          }
        case FocusOut(inferior) =>
          if !inferior {
            gotFocus := false;
            redraw := highlightWidth > 0;
          }
        case _ =>
      }
      if redraw {
        ScheduleRedraw();
      }
    }

    /** Destruction clears the flags and cancels the queued redraw. */
    method Destroy()
      modifies this`redrawPending, this`gotFocus, this`queued
      ensures Valid() && !redrawPending && !gotFocus && queued == 0
    {
      redrawPending := false;
      gotFocus := false;
      queued := 0;
    }
  }
}
