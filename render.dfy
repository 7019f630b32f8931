/** What `update_proc` (src/main.c:128-195) draws: the graphics calls it makes, as a
    sequence of commands, and what those commands leave on the screen. */
module Drawing {
  import opened Geometry
  import opened ShadowTable

  /** A GRect: origin and size. */
  datatype Rect = Rect(origin: Point, w: int, h: int)

  /** The five colours the face keeps: `gcolorbg`, `gcolorm`, `gcolorh`, `gcolorp`, `gcolorshadow`. */
  datatype Palette = Palette(bg: Color, minute: Color, hour: Color, peg: Color, shadow: Color)

  /** The `graphics_*` calls `update_proc` makes. */
  datatype Cmd =
    | SetFillColor(fill: Color)
    | FillRect(rect: Rect)
    | SetAntialiased(on: bool)
    | SetStrokeColor(stroke: Color)
    | SetStrokeWidth(width: int)
    | DrawLine(from: Point, to: Point)
    | FillCircle(center: Point, radius: int)

  /** A hand from its inner to its outer end point. */
  datatype Hand = Hand(inner: Point, outer: Point)

  /** The same point `dy` further down the screen. */
  function Shifted(p: Point, dy: int): Point
  {
    Point(p.x, p.y + dy)
  }

  function ShiftedHand(h: Hand, dy: int): Hand
  {
    Hand(Shifted(h.inner, dy), Shifted(h.outer, dy))
  }

  /** `minute_hand_inner` and `minute_hand_outer` (main.c:148-155). */
  function MinuteHand(e: MarginExpansion, t: Time, radius: int, center: Point, trig: Trig): Hand
  {
    var angle := MinuteAngle(t.minutes);
    Hand(HandEnd(center, angle, HandMarginInner, trig), HandEnd(center, angle, MinuteLength(e, radius), trig))
  }

  /** `hour_hand_inner` and `hour_hand_outer` (main.c:156-163). */
  function HourHand(e: MarginExpansion, t: Time, radius: int, center: Point, trig: Trig): Hand
  {
    var angle := HourAngle(t);
    Hand(HandEnd(center, angle, HandMarginInner, trig), HandEnd(center, angle, HourLength(e, radius), trig))
  }

  /** Setting the stroke colour and width and drawing one hand. */
  function Stroke(color: Color, h: Hand): seq<Cmd>
  {
    [SetStrokeColor(color), SetStrokeWidth(HandWidth), DrawLine(h.inner, h.outer)]
  }

  /** The calls `update_proc` makes, in order, for margins expanded as `e`: the background,
      then, when the hands are shown, the hour and minute shadows and the hour and minute
      hands, each behind its own gate, and last the peg. */
  function Render(e: MarginExpansion, p: Palette, t: Time, radius: int, center: Point, bounds: Rect, trig: Trig): seq<Cmd>
  {
    var hour, minute := HourHand(e, t, radius, center, trig), MinuteHand(e, t, radius, center, trig);
    [SetFillColor(p.bg), FillRect(bounds), SetAntialiased(true)]
    + (if HandsShown(e, radius) then
         (if HourShown(e, radius) then Stroke(p.shadow, ShiftedHand(hour, ShadowOffset)) else [])
         + (if MinuteShown(e, radius) then Stroke(p.shadow, ShiftedHand(minute, ShadowOffset + 1)) else [])
         + (if HourShown(e, radius) then Stroke(p.hour, hour) else [])
         + (if MinuteShown(e, radius) then Stroke(p.minute, minute) else [])
       else [])
    + [SetFillColor(p.peg), FillCircle(center, DotRadius)]
  }

  /** The drawing state of a graphics context. */
  datatype Pen = Pen(fill: Color, stroke: Color, width: int, antialiased: bool)

  /** What a drawing call leaves on the screen, with the colour and width it was drawn in. */
  datatype Mark =
    | Filled(rect: Rect, color: Color)
    | Line(from: Point, to: Point, color: Color, width: int, antialiased: bool)
    | Disc(center: Point, radius: int, color: Color, antialiased: bool)

  function Apply(pen: Pen, c: Cmd): Pen
  {
    match c
    case SetFillColor(f) => pen.(fill := f)
    case SetAntialiased(on) => pen.(antialiased := on)
    case SetStrokeColor(s) => pen.(stroke := s)
    case SetStrokeWidth(w) => pen.(width := w)
    case _ => pen
  }

  function MarkOf(pen: Pen, c: Cmd): seq<Mark>
  {
    match c
    case FillRect(r) => [Filled(r, pen.fill)]
    case DrawLine(a, b) => [Line(a, b, pen.stroke, pen.width, pen.antialiased)]
    case FillCircle(center, radius) => [Disc(center, radius, pen.fill, pen.antialiased)]
    case _ => []
  }

  /** The marks a sequence of calls leaves, starting from `pen`. */
  function Paint(pen: Pen, cmds: seq<Cmd>): seq<Mark>
    decreases |cmds|
  {
    if cmds == [] then [] else MarkOf(pen, cmds[0]) + Paint(Apply(pen, cmds[0]), cmds[1..])
  }

  /** The drawing state after a sequence of calls. */
  function PenAfter(pen: Pen, cmds: seq<Cmd>): Pen
    decreases |cmds|
  {
    if cmds == [] then pen else PenAfter(Apply(pen, cmds[0]), cmds[1..])
  }

  /** Painting two runs of calls one after the other. */
  lemma {:induction false} PaintAppend(pen: Pen, a: seq<Cmd>, b: seq<Cmd>)
    ensures Paint(pen, a + b) == Paint(pen, a) + Paint(PenAfter(pen, a), b)
    ensures PenAfter(pen, a + b) == PenAfter(PenAfter(pen, a), b)
    decreases |a|
  {
    if a != [] {
      assert (a + b)[0] == a[0] && (a + b)[1..] == a[1..] + b;
      PaintAppend(Apply(pen, a[0]), a[1..], b);
    } else {
      assert a + b == b;
    }
  }

  /** A stroke draws its hand in its colour and the hand width, whatever the pen before. */
  lemma StrokePaints(pen: Pen, color: Color, h: Hand)
    ensures Paint(pen, Stroke(color, h)) == [Line(h.inner, h.outer, color, HandWidth, pen.antialiased)]
    ensures PenAfter(pen, Stroke(color, h)) == pen.(stroke := color, width := HandWidth)
  {
    var s := Stroke(color, h);
    var pen1, pen2 := pen.(stroke := color), pen.(stroke := color, width := HandWidth);
    var last := [DrawLine(h.inner, h.outer)];
    assert s[1..] == [SetStrokeWidth(HandWidth)] + last;
    assert s[1..][1..] == last && last[1..] == [];
    assert Paint(pen2, last) == [Line(h.inner, h.outer, color, HandWidth, pen.antialiased)];
    assert PenAfter(pen2, last) == pen2;
    assert Paint(pen1, s[1..]) == Paint(pen2, last);
    assert PenAfter(pen1, s[1..]) == pen2;
  }

  /** A hand drawn antialiased in the hand width. */
  function HandLine(h: Hand, color: Color): Mark
  {
    Line(h.inner, h.outer, color, HandWidth, true)
  }

  /** What one frame shows, back to front: the background, the shadows under the hands,
      the hands, and the peg on top. */
  function Picture(e: MarginExpansion, p: Palette, t: Time, radius: int, center: Point, bounds: Rect, trig: Trig): seq<Mark>
  {
    var hour, minute := HourHand(e, t, radius, center, trig), MinuteHand(e, t, radius, center, trig);
    var showHour := HandsShown(e, radius) && HourShown(e, radius);
    var showMinute := HandsShown(e, radius) && MinuteShown(e, radius);
    [Filled(bounds, p.bg)]
    + (Shown(showHour, ShiftedHand(hour, ShadowOffset), p.shadow)
       + Shown(showMinute, ShiftedHand(minute, ShadowOffset + 1), p.shadow)
       + Shown(showHour, hour, p.hour) + Shown(showMinute, minute, p.minute))
    + [Disc(center, DotRadius, p.peg, true)]
  }

  /** One hand behind its gate: the stroke when `show` holds, no call otherwise. */
  function Gated(show: bool, color: Color, h: Hand): seq<Cmd>
  {
    if show then Stroke(color, h) else []
  }

  /** The line a gated hand leaves, if any. */
  function Shown(show: bool, h: Hand, color: Color): seq<Mark>
  {
    if show then [HandLine(h, color)] else []
  }

  /** One hand-or-nothing step of the frame: painting it adds its line if shown and leaves
      the pen antialiased. */
  lemma GatedStrokePaints(pen: Pen, show: bool, color: Color, h: Hand)
    requires pen.antialiased
    ensures Paint(pen, Gated(show, color, h)) == Shown(show, h, color)
    ensures PenAfter(pen, Gated(show, color, h)).antialiased
  {
    if show {
      StrokePaints(pen, color, h);
    }
  }

  /** The background call fills the bounds in the background colour and turns antialiasing on. */
  lemma BackgroundPaints(pen: Pen, bg: Color, bounds: Rect)
    ensures var head := [SetFillColor(bg), FillRect(bounds), SetAntialiased(true)];
      Paint(pen, head) == [Filled(bounds, bg)] && PenAfter(pen, head).antialiased
  {
    var head := [SetFillColor(bg), FillRect(bounds), SetAntialiased(true)];
    var pen1 := pen.(fill := bg);
    var pen2 := pen1.(antialiased := true);
    assert head[1..] == [FillRect(bounds), SetAntialiased(true)];
    assert head[1..][1..] == [SetAntialiased(true)];
    assert head[1..][1..][1..] == [];
    assert Paint(pen1, head[1..][1..]) == [] && PenAfter(pen1, head[1..][1..]) == pen2;
    assert Paint(pen1, head[1..]) == [Filled(bounds, bg)];
  }

  /** The peg call fills a disc of DOT_RADIUS at the centre in the peg colour. */
  lemma PegPaints(pen: Pen, peg: Color, center: Point)
    ensures Paint(pen, [SetFillColor(peg), FillCircle(center, DotRadius)]) == [Disc(center, DotRadius, peg, pen.antialiased)]
  {
    var tail := [SetFillColor(peg), FillCircle(center, DotRadius)];
    var pen1 := pen.(fill := peg);
    assert tail[1..] == [FillCircle(center, DotRadius)];
    assert tail[1..][1..] == [];
    assert Paint(pen1, tail[1..]) == [Disc(center, DotRadius, peg, pen.antialiased)];
  }

  /** The four gated strokes of a frame paint their shown hands in order. */
  lemma HandsPaint(pen: Pen, showHour: bool, showMinute: bool, p: Palette, hour: Hand, minute: Hand)
    requires pen.antialiased
    ensures var h1, h2 := ShiftedHand(hour, ShadowOffset), ShiftedHand(minute, ShadowOffset + 1);
      var cmds := Gated(showHour, p.shadow, h1) + Gated(showMinute, p.shadow, h2)
                  + Gated(showHour, p.hour, hour) + Gated(showMinute, p.minute, minute);
      && Paint(pen, cmds) == Shown(showHour, h1, p.shadow) + Shown(showMinute, h2, p.shadow)
                             + Shown(showHour, hour, p.hour) + Shown(showMinute, minute, p.minute)
      && PenAfter(pen, cmds).antialiased
  {
    var h1, h2 := ShiftedHand(hour, ShadowOffset), ShiftedHand(minute, ShadowOffset + 1);
    var s1, s2 := Gated(showHour, p.shadow, h1), Gated(showMinute, p.shadow, h2);
    var s3, s4 := Gated(showHour, p.hour, hour), Gated(showMinute, p.minute, minute);
    GatedStrokePaints(pen, showHour, p.shadow, h1);
    GatedStrokePaints(PenAfter(pen, s1), showMinute, p.shadow, h2);
    PaintAppend(pen, s1, s2);
    GatedStrokePaints(PenAfter(pen, s1 + s2), showHour, p.hour, hour);
    PaintAppend(pen, s1 + s2, s3);
    GatedStrokePaints(PenAfter(pen, s1 + s2 + s3), showMinute, p.minute, minute);
    PaintAppend(pen, s1 + s2 + s3, s4);
  }

  /** The calls of a frame as background, four gated strokes and peg. */
  lemma RenderGated(e: MarginExpansion, p: Palette, t: Time, radius: int, center: Point, bounds: Rect, trig: Trig)
    ensures var hour, minute := HourHand(e, t, radius, center, trig), MinuteHand(e, t, radius, center, trig);
      var showHour := HandsShown(e, radius) && HourShown(e, radius);
      var showMinute := HandsShown(e, radius) && MinuteShown(e, radius);
      Render(e, p, t, radius, center, bounds, trig)
      == [SetFillColor(p.bg), FillRect(bounds), SetAntialiased(true)]
         + (Gated(showHour, p.shadow, ShiftedHand(hour, ShadowOffset))
            + Gated(showMinute, p.shadow, ShiftedHand(minute, ShadowOffset + 1))
            + Gated(showHour, p.hour, hour) + Gated(showMinute, p.minute, minute))
         + [SetFillColor(p.peg), FillCircle(center, DotRadius)]
  {
  }

  /** Whatever state the graphics context is in, the calls of `update_proc` paint exactly
      the frame: every mark has the colour the face keeps for it. */
  lemma RenderPaintsPicture(e: MarginExpansion, p: Palette, t: Time, radius: int, center: Point, bounds: Rect, trig: Trig, pen: Pen)
    ensures Paint(pen, Render(e, p, t, radius, center, bounds, trig)) == Picture(e, p, t, radius, center, bounds, trig)
  {
    var hour, minute := HourHand(e, t, radius, center, trig), MinuteHand(e, t, radius, center, trig);
    var showHour := HandsShown(e, radius) && HourShown(e, radius);
    var showMinute := HandsShown(e, radius) && MinuteShown(e, radius);
    var head := [SetFillColor(p.bg), FillRect(bounds), SetAntialiased(true)];
    var h1, h2 := ShiftedHand(hour, ShadowOffset), ShiftedHand(minute, ShadowOffset + 1);
    var hands := Gated(showHour, p.shadow, h1) + Gated(showMinute, p.shadow, h2)
                 + Gated(showHour, p.hour, hour) + Gated(showMinute, p.minute, minute);
    var tail := [SetFillColor(p.peg), FillCircle(center, DotRadius)];
    RenderGated(e, p, t, radius, center, bounds, trig);
    BackgroundPaints(pen, p.bg, bounds);
    HandsPaint(PenAfter(pen, head), showHour, showMinute, p, hour, minute);
    PaintAppend(pen, head, hands);
    PegPaints(PenAfter(pen, head + hands), p.peg, center);
    PaintAppend(pen, head + hands, tail);
  }

  /** With the margins as written, a frame up to radius 13 is only background and peg, the
      minute hand and its shadow join from 14, and the hour hand and its shadow from 18. */
  lemma AsWrittenFrames(p: Palette, t: Time, radius: int, center: Point, bounds: Rect, trig: Trig)
    ensures var pic := Picture(AsWritten, p, t, radius, center, bounds, trig);
      var hour, minute := HourHand(AsWritten, t, radius, center, trig), MinuteHand(AsWritten, t, radius, center, trig);
      && (radius <= 13 ==> pic == [Filled(bounds, p.bg), Disc(center, DotRadius, p.peg, true)])
      && (13 < radius <= 17 ==> pic == [Filled(bounds, p.bg), HandLine(ShiftedHand(minute, 3), p.shadow),
                                         HandLine(minute, p.minute), Disc(center, DotRadius, p.peg, true)])
      && (17 < radius ==> pic == [Filled(bounds, p.bg), HandLine(ShiftedHand(hour, 2), p.shadow),
                                  HandLine(ShiftedHand(minute, 3), p.shadow), HandLine(hour, p.hour),
                                  HandLine(minute, p.minute), Disc(center, DotRadius, p.peg, true)])
  {
    AsWrittenGates(radius);
  }

  /** Both hands start at the centre, and the peg is drawn there, on top of them. */
  lemma HandsStartAtCenter(e: MarginExpansion, t: Time, radius: int, center: Point, trig: Trig)
    ensures HourHand(e, t, radius, center, trig).inner == center
    ensures MinuteHand(e, t, radius, center, trig).inner == center
  {
    HandEndAtInnerMargin(center, HourAngle(t), trig);
    HandEndAtInnerMargin(center, MinuteAngle(t.minutes), trig);
  }
}
