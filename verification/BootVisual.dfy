/**
 The boot picture: clipped rectangle fills in framebuffer memory, and the scene
 they draw.  Each drawing method is proved to paint its rectangles.  Coordinates
 are 32-bit and sums wrap; no sum of the boot picture does.
 */
module BootVisual {
  import opened Words
  import opened Painter

  const BACKGROUND: U32 := 0x0B1020
  const PANEL: U32 := 0x121A31
  const PANEL_BORDER: U32 := 0x2F4F8F
  const ACCENT: U32 := 0x62D0FF
  const ACCENT_MUTED: U32 := 0x24415F
  const SUCCESS: U32 := 0x6EE7B7
  const SHELL_SURFACE: U32 := 0x0A0F1D

  // ---- the scene ----

  /** Both far edges fit in 32 bits. */
  predicate Fits(x: nat, y: nat, width: nat, height: nat) {
    x + width < TWO_32 && y + height < TWO_32
  }

  /** Wrapping sum of two coordinates. */
  function Add32(a: U32, b: U32): U32 {
    (a + b) % TWO_32
  }

  /** What a fill shows: a far edge past 2^32 wraps below the near one, so nothing. */
  function Drawn(x: U32, y: U32, width: U32, height: U32, color: U32): Rect {
    if Fits(x, y, width, height) then Rect(x, y, width, height, color) else Rect(x, y, 0, 0, color)
  }

  function StrokeRects(x: U32, y: U32, width: U32, height: U32, thickness: U32, color: U32): seq<Rect> {
    [Drawn(x, y, width, thickness, color),
     Drawn(x, Add32(y, Sub(height, thickness)), width, thickness, color),
     Drawn(x, y, thickness, height, color),
     Drawn(Add32(x, Sub(width, thickness)), y, thickness, height, color)]
  }

  function MarkRects(x: U32, y: U32, size: U32, color: U32): seq<Rect> {
    var third := size / 3;
    [Drawn(x, Add32(y, third), third, Sub(size, third), color),
     Drawn(Add32(x, third), y, third, size, color),
     Drawn(Add32(x, third * 2), Add32(y, third), third, Sub(size, third), color)]
  }

  /** Saturating product with two, divided by five. */
  function Filled(width: U32): U32 {
    (if width * 2 < TWO_32 then width * 2 else TWO_32 - 1) / 5
  }

  function ProgressRects(x: U32, y: U32, width: U32, height: U32): seq<Rect> {
    [Drawn(x, y, width, height, ACCENT_MUTED),
     Drawn(x, y, Filled(width), height, ACCENT),
     Drawn(Add32(x, Sub(Filled(width), 7)), Sub(y, 4), 14, Add32(height, 8), SUCCESS)]
  }

  /** A frame whose far edges fit is drawn in full: four edges, none moved by a wrap. */
  lemma StrokeInFull(x: U32, y: U32, width: U32, height: U32, thickness: U32, color: U32)
    requires Fits(x, y, width, height) && Fits(x, y, thickness, thickness)
    ensures StrokeRects(x, y, width, height, thickness, color) ==
      [Rect(x, y, width, thickness, color),
       Rect(x, y + Sub(height, thickness), width, thickness, color),
       Rect(x, y, thickness, height, color),
       Rect(x + Sub(width, thickness), y, thickness, height, color)]
  {
  }

  /** A mark whose far edges fit is drawn in full. */
  lemma MarkInFull(x: U32, y: U32, size: U32, color: U32)
    requires Fits(x, y, size, size)
    ensures
      var third := size / 3;
      MarkRects(x, y, size, color) ==
        [Rect(x, y + third, third, size - third, color),
         Rect(x + third, y, third, size, color),
         Rect(x + third * 2, y + third, third, size - third, color)]
  {
  }

  /** A bar whose far edges fit, marker included, is drawn in full. */
  lemma ProgressInFull(x: U32, y: U32, width: U32, height: U32)
    requires Fits(x, y, width + 14, height + 8)
    ensures ProgressRects(x, y, width, height) ==
      [Rect(x, y, width, height, ACCENT_MUTED),
       Rect(x, y, Filled(width), height, ACCENT),
       Rect(x + Sub(Filled(width), 7), Sub(y, 4), 14, height + 8, SUCCESS)]
  {
  }

  function PanelWidth(s: Screen): U32 { Sub(s.width, 120) }
  function PanelHeight(s: Screen): U32 { Min(s.height, 220) }
  function PanelY(s: Screen): U32 { Sub(s.height, PanelHeight(s)) / 2 }

  /** Where the panel's parts go: nothing drawn relative to it leaves 32 bits. */
  lemma PanelFits(s: Screen)
    ensures Fits(60, PanelY(s), PanelWidth(s), PanelHeight(s))
    ensures PanelY(s) + 220 < TWO_32 && 88 + PanelWidth(s) < TWO_32
    ensures Fits(60, PanelY(s), 4, 4) && Fits(60 + Sub(PanelWidth(s), 84), PanelY(s) + 38, 36, 36)
    ensures Fits(88, PanelY(s) + Sub(PanelHeight(s), 42), Sub(PanelWidth(s), 56) + 14, 20)
  {
  }

  function Backdrop(s: Screen): seq<Rect> {
    [Rect(0, 0, s.width, s.height, BACKGROUND),
     Rect(0, 0, s.width, 28, ACCENT_MUTED),
     Rect(0, Sub(s.height, 18), s.width, 18, PANEL)]
  }

  function PanelFrame(s: Screen): seq<Rect> {
    PanelFits(s);
    [Rect(60, PanelY(s), PanelWidth(s), PanelHeight(s), PANEL)]
      + StrokeRects(60, PanelY(s), PanelWidth(s), PanelHeight(s), 4, PANEL_BORDER)
  }

  function PanelBars(s: Screen): seq<Rect> {
    PanelFits(s);
    [Rect(88, PanelY(s) + 28, Sub(PanelWidth(s), 56), 10, ACCENT),
     Rect(88, PanelY(s) + 58, Sub(PanelWidth(s), 140), 18, SUCCESS),
     Rect(88, PanelY(s) + 92, Sub(PanelWidth(s), 72), 10, ACCENT_MUTED),
     Rect(88, PanelY(s) + 116, Sub(PanelWidth(s), 180), 10, ACCENT_MUTED),
     Rect(88, PanelY(s) + 140, Sub(PanelWidth(s), 240), 10, ACCENT_MUTED)]
  }

  function PanelMarks(s: Screen): seq<Rect> {
    PanelFits(s);
    MarkRects(60 + Sub(PanelWidth(s), 84), PanelY(s) + 38, 36, ACCENT)
      + ProgressRects(88, PanelY(s) + Sub(PanelHeight(s), 42), Sub(PanelWidth(s), 56), 12)
  }

  function ShellSurface(s: Screen): seq<Rect> {
    [Rect(64, Sub(s.height, 84), Sub(s.width, 128), 48, SHELL_SURFACE)]
  }

  /** The whole picture, back to front. */
  function Scene(s: Screen): seq<Rect> {
    Backdrop(s) + (PanelFrame(s) + (PanelBars(s) + (PanelMarks(s) + ShellSurface(s))))
  }

  /** On no screen does a wrapped sum move or drop a part of the panel. */
  lemma PanelInFull(s: Screen)
    ensures PanelFrame(s) ==
      [Rect(60, PanelY(s), PanelWidth(s), PanelHeight(s), PANEL),
       Rect(60, PanelY(s), PanelWidth(s), 4, PANEL_BORDER),
       Rect(60, PanelY(s) + Sub(PanelHeight(s), 4), PanelWidth(s), 4, PANEL_BORDER),
       Rect(60, PanelY(s), 4, PanelHeight(s), PANEL_BORDER),
       Rect(60 + Sub(PanelWidth(s), 4), PanelY(s), 4, PanelHeight(s), PANEL_BORDER)]
    ensures
      var x, y, w := 60 + Sub(PanelWidth(s), 84), PanelY(s) + Sub(PanelHeight(s), 42), Sub(PanelWidth(s), 56);
      PanelMarks(s) ==
        [Rect(x, PanelY(s) + 50, 12, 24, ACCENT),
         Rect(x + 12, PanelY(s) + 38, 12, 36, ACCENT),
         Rect(x + 24, PanelY(s) + 50, 12, 24, ACCENT),
         Rect(88, y, w, 12, ACCENT_MUTED),
         Rect(88, y, Filled(w), 12, ACCENT),
         Rect(88 + Sub(Filled(w), 7), Sub(y, 4), 14, 20, SUCCESS)]
  {
    PanelFits(s);
    StrokeInFull(60, PanelY(s), PanelWidth(s), PanelHeight(s), 4, PANEL_BORDER);
    MarkInFull(60 + Sub(PanelWidth(s), 84), PanelY(s) + 38, 36, ACCENT);
    ProgressInFull(88, PanelY(s) + Sub(PanelHeight(s), 42), Sub(PanelWidth(s), 56), 12);
  }

  /** The panel stands in the middle of the screen, 60 pixels from either side where there is room. */
  lemma PanelCentred(s: Screen)
    ensures PanelY(s) + PanelHeight(s) <= s.height
    ensures 0 <= (s.height - (PanelY(s) + PanelHeight(s))) - PanelY(s) <= 1
    ensures s.width >= 120 ==> s.width - (60 + PanelWidth(s)) == 60
    ensures PanelHeight(s) == if s.height <= 220 then s.height else 220
  {
  }

  /** Two fifths, rounded down; doubling saturates from half the 32-bit range on. */
  lemma TwoFifths(width: U32)
    ensures width < 0x8000_0000 ==> 5 * Filled(width) <= 2 * width < 5 * Filled(width) + 5
    ensures width >= 0x8000_0000 ==> Filled(width) == 0x3333_3333
  {
  }

  /** Backdrop, bars and shell surface in the screen's own width and height. */
  lemma LayersInFull(s: Screen)
    ensures Backdrop(s) ==
      [Rect(0, 0, s.width, s.height, 0x0B1020),
       Rect(0, 0, s.width, 28, 0x24415F),
       Rect(0, Sub(s.height, 18), s.width, 18, 0x121A31)]
    ensures
      var w := if s.width < 120 then 0 else s.width - 120;
      var h := if s.height < 220 then s.height else 220;
      var y := (s.height - h) / 2;
      PanelBars(s) ==
        [Rect(88, y + 28, Sub(w, 56), 10, 0x62D0FF),
         Rect(88, y + 58, Sub(w, 140), 18, 0x6EE7B7),
         Rect(88, y + 92, Sub(w, 72), 10, 0x24415F),
         Rect(88, y + 116, Sub(w, 180), 10, 0x24415F),
         Rect(88, y + 140, Sub(w, 240), 10, 0x24415F)]
    ensures ShellSurface(s) == [Rect(64, Sub(s.height, 84), Sub(s.width, 128), 48, 0x0A0F1D)]
  {
  }

  /** Panel, frame, mark and progress bar in the screen's own width and height. */
  lemma PanelLayersInFull(s: Screen)
    ensures
      var w := if s.width < 120 then 0 else s.width - 120;
      var h := if s.height < 220 then s.height else 220;
      var y := (s.height - h) / 2;
      var track := Sub(w, 56);
      && PanelFrame(s) ==
        [Rect(60, y, w, h, 0x121A31),
         Rect(60, y, w, 4, 0x2F4F8F),
         Rect(60, y + Sub(h, 4), w, 4, 0x2F4F8F),
         Rect(60, y, 4, h, 0x2F4F8F),
         Rect(60 + Sub(w, 4), y, 4, h, 0x2F4F8F)]
      && PanelMarks(s) ==
        [Rect(60 + Sub(w, 84), y + 50, 12, 24, 0x62D0FF),
         Rect(60 + Sub(w, 84) + 12, y + 38, 12, 36, 0x62D0FF),
         Rect(60 + Sub(w, 84) + 24, y + 50, 12, 24, 0x62D0FF),
         Rect(88, y + Sub(h, 42), track, 12, 0x24415F),
         Rect(88, y + Sub(h, 42), Filled(track), 12, 0x62D0FF),
         Rect(88 + Sub(Filled(track), 7), Sub(y + Sub(h, 42), 4), 14, 20, 0x6EE7B7)]
  {
    PanelInFull(s);
  }

  /** The picture is drawn back to front: backdrop, panel, bars, mark and progress, shell surface. */
  lemma SceneInOrder(s: Screen, i: nat)
    ensures |Scene(s)| == 20
    ensures i < 3 ==> Scene(s)[i] == Backdrop(s)[i]
    ensures 3 <= i < 8 ==> Scene(s)[i] == PanelFrame(s)[i - 3]
    ensures 8 <= i < 13 ==> Scene(s)[i] == PanelBars(s)[i - 8]
    ensures 13 <= i < 19 ==> Scene(s)[i] == PanelMarks(s)[i - 13]
    ensures i == 19 ==> Scene(s)[i] == ShellSurface(s)[0]
  {
  }

  predicate Inside(inner: Rect, outer: Rect) {
    && outer.x <= inner.x && inner.x + inner.width <= outer.x + outer.width
    && outer.y <= inner.y && inner.y + inner.height <= outer.y + outer.height
  }

  /** On a screen of at least 204 by 220 pixels everything drawn on the panel lies
      inside it, and the panel and the shell surface lie inside the screen. */
  lemma ContentsInsidePanel(s: Screen, i: nat)
    requires s.width >= 204 && s.height >= 220 && i < |PanelBars(s) + PanelMarks(s)|
    ensures
      var panel := Rect(60, PanelY(s), PanelWidth(s), PanelHeight(s), PANEL);
      && Inside((PanelBars(s) + PanelMarks(s))[i], panel)
      && Inside(panel, Backdrop(s)[0]) && Inside(ShellSurface(s)[0], Backdrop(s)[0])
  {
    PanelInFull(s);
    PanelCentred(s);
    TwoFifths(Sub(PanelWidth(s), 56));
  }

  // ---- joining rectangles ----

  lemma Join(s: Screen, mem: seq<Byte>, a: Rect, b: Rect, c: Rect)
    requires a.color == b.color == c.color
    requires forall px, py :: Covers(c, px, py) <==> Covers(a, px, py) || Covers(b, px, py)
    ensures Paint(s, Paint(s, mem, a), b) == Paint(s, mem, c)
  {
  }

  /** Painting past the screen's edges is painting up to them. */
  lemma Clip(s: Screen, mem: seq<Byte>, r: Rect)
    requires Fits(r.x, r.y, r.width, r.height)
    ensures
      var w := Sub(Min(r.x + r.width, s.width), r.x);
      var h := Sub(Min(r.y + r.height, s.height), r.y);
      Paint(s, mem, r.(width := w, height := h)) == Paint(s, mem, r)
  {
  }

  lemma PaintNothing(s: Screen, mem: seq<Byte>, r: Rect)
    requires r.width == 0 || r.height == 0
    ensures Paint(s, mem, r) == mem
  {
  }

  /** The same for any coordinates, wrapped edges included. */
  lemma ClipDrawn(s: Screen, mem: seq<Byte>, x: U32, y: U32, width: U32, height: U32, color: U32)
    requires width > 0 && height > 0
    ensures
      var w := Sub(Min(Add32(x, width), s.width), x);
      var h := Sub(Min(Add32(y, height), s.height), y);
      Paint(s, mem, Rect(x, y, w, h, color)) == Paint(s, mem, Drawn(x, y, width, height, color))
  {
    WrapsBelow(x, width);
    WrapsBelow(y, height);
    if Fits(x, y, width, height) {
      Clip(s, mem, Rect(x, y, width, height, color));
    } else {
      var w := Sub(Min(Add32(x, width), s.width), x);
      var h := Sub(Min(Add32(y, height), s.height), y);
      PaintNothing(s, mem, Rect(x, y, w, h, color));
      PaintNothing(s, mem, Rect(x, y, 0, 0, color));
    }
  }

  lemma WrapsBelow(a: U32, b: U32)
    requires b > 0
    ensures if a + b < TWO_32 then Add32(a, b) == a + b else Add32(a, b) < a
  {
  }

  lemma PaintOne(s: Screen, mem: seq<Byte>, r: Rect)
    ensures PaintAll(s, mem, [r]) == Paint(s, mem, r)
  {
  }

  // ---- drawing ----

  class FramebufferDisplay {
    const screen: Screen
    const mem: array<Byte>

    /** The framebuffer is `pitch * height` bytes. */
    ghost predicate Valid() {
      mem.Length == screen.pitch * screen.height
    }

    constructor (screen: Screen, mem: array<Byte>)
      requires mem.Length == screen.pitch * screen.height
      ensures Valid() && this.screen == screen && this.mem == mem
    {
      this.screen := screen;
      this.mem := mem;
    }

    /** One 32-bit store. */
    method WritePixel(px: U32, py: U32, color: U32)
      requires Valid() && px < screen.width && py < screen.height
      modifies mem
      ensures mem[..] == Paint(screen, old(mem[..]), Rect(px, py, 1, 1, color))
    {
      PixelBytes(screen, px, py, 0);
      OffsetFits(screen, px, py);
      var offset: U64 := Offset(screen, px, py);
      mem[offset] := Lane(color, 0);
      mem[offset + 1] := Lane(color, 1);
      mem[offset + 2] := Lane(color, 2);
      mem[offset + 3] := Lane(color, 3);
      forall k | 0 <= k < mem.Length
        ensures mem[k] == PaintByte(screen, Rect(px, py, 1, 1, color), k, old(mem[k]))
      {
        PixelBytes(screen, px, py, k);
      }
    }

    method FillRow(x: U32, maxX: U32, py: U32, color: U32)
      requires Valid() && maxX <= screen.width && py < screen.height
      modifies mem
      ensures mem[..] == Paint(screen, old(mem[..]), Rect(x, py, Sub(maxX, x), 1, color))
    {
      var px := x;
      PaintNothing(screen, mem[..], Rect(x, py, 0, 1, color));
      while px < maxX
        invariant x <= px && (px <= maxX || px == x)
        invariant mem[..] == Paint(screen, old(mem[..]), Rect(x, py, px - x, 1, color))
      {
        WritePixel(px, py, color);
        Join(screen, old(mem[..]), Rect(x, py, px - x, 1, color), Rect(px, py, 1, 1, color),
             Rect(x, py, px + 1 - x, 1, color));
        px := px + 1;
      }
    }

    method FillRect(x: U32, y: U32, width: U32, height: U32, color: U32)
      requires Valid()
      modifies mem
      ensures mem[..] == Paint(screen, old(mem[..]), Drawn(x, y, width, height, color))
    {
      if width == 0 || height == 0 {
        PaintNothing(screen, mem[..], Drawn(x, y, width, height, color));
        return;
      }
      var maxX: U32 := Min(Add32(x, width), screen.width);
      var maxY: U32 := Min(Add32(y, height), screen.height);
      var w := Sub(maxX, x);
      var py := y;
      PaintNothing(screen, mem[..], Rect(x, y, w, 0, color));
      while py < maxY
        invariant y <= py && (py <= maxY || py == y)
        invariant mem[..] == Paint(screen, old(mem[..]), Rect(x, y, w, py - y, color))
      {
        FillRow(x, maxX, py, color);
        Join(screen, old(mem[..]), Rect(x, y, w, py - y, color), Rect(x, py, w, 1, color),
             Rect(x, y, w, py + 1 - y, color));
        py := py + 1;
      }
      ClipDrawn(screen, old(mem[..]), x, y, width, height, color);
    }

    /** Fills rectangle `i` of a list, the ones before it being drawn already. */
    method FillNext(x: U32, y: U32, width: U32, height: U32, color: U32,
                    ghost start: seq<Byte>, ghost rects: seq<Rect>, ghost i: nat)
      requires Valid()
      requires i < |rects| && rects[i] == Drawn(x, y, width, height, color)
      requires mem[..] == PaintAll(screen, start, rects[..i])
      modifies mem
      ensures mem[..] == PaintAll(screen, start, rects[..i + 1])
      ensures i + 1 == |rects| ==> mem[..] == PaintAll(screen, start, rects)
    {
      FillRect(x, y, width, height, color);
      PaintOne(screen, PaintAll(screen, start, rects[..i]), rects[i]);
      PaintAllConcat(screen, start, rects[..i], [rects[i]]);
      assert rects[..i + 1] == rects[..i] + [rects[i]];
      assert rects[..|rects|] == rects;
    }

    method StrokeRect(x: U32, y: U32, width: U32, height: U32, thickness: U32, color: U32)
      requires Valid()
      modifies mem
      ensures mem[..] == PaintAll(screen, old(mem[..]), StrokeRects(x, y, width, height, thickness, color))
    {
      ghost var rects := StrokeRects(x, y, width, height, thickness, color);
      FillNext(x, y, width, thickness, color, old(mem[..]), rects, 0);
      FillNext(x, Add32(y, Sub(height, thickness)), width, thickness, color, old(mem[..]), rects, 1);
      FillNext(x, y, thickness, height, color, old(mem[..]), rects, 2);
      FillNext(Add32(x, Sub(width, thickness)), y, thickness, height, color, old(mem[..]), rects, 3);
    }

    method DrawMark(x: U32, y: U32, size: U32, color: U32)
      requires Valid()
      modifies mem
      ensures mem[..] == PaintAll(screen, old(mem[..]), MarkRects(x, y, size, color))
    {
      ghost var rects := MarkRects(x, y, size, color);
      var third := size / 3;
      FillNext(x, Add32(y, third), third, Sub(size, third), color, old(mem[..]), rects, 0);
      FillNext(Add32(x, third), y, third, size, color, old(mem[..]), rects, 1);
      FillNext(Add32(x, third * 2), Add32(y, third), third, Sub(size, third), color, old(mem[..]), rects, 2);
    }

    method DrawProgress(x: U32, y: U32, width: U32, height: U32)
      requires Valid()
      modifies mem
      ensures mem[..] == PaintAll(screen, old(mem[..]), ProgressRects(x, y, width, height))
    {
      ghost var rects := ProgressRects(x, y, width, height);
      FillNext(x, y, width, height, ACCENT_MUTED, old(mem[..]), rects, 0);
      var filled := Filled(width);
      FillNext(x, y, filled, height, ACCENT, old(mem[..]), rects, 1);
      var markerWidth := 14;
      FillNext(Add32(x, Sub(filled, markerWidth / 2)), Sub(y, 4), markerWidth, Add32(height, 8), SUCCESS, old(mem[..]), rects, 2);
    }

    method DrawBackdrop()
      requires Valid()
      modifies mem
      ensures mem[..] == PaintAll(screen, old(mem[..]), Backdrop(screen))
    {
      ghost var rects := Backdrop(screen);
      FillNext(0, 0, screen.width, screen.height, BACKGROUND, old(mem[..]), rects, 0);
      FillNext(0, 0, screen.width, 28, ACCENT_MUTED, old(mem[..]), rects, 1);
      FillNext(0, Sub(screen.height, 18), screen.width, 18, PANEL, old(mem[..]), rects, 2);
    }

    method DrawPanelFrame()
      requires Valid()
      modifies mem
      ensures mem[..] == PaintAll(screen, old(mem[..]), PanelFrame(screen))
    {
      PanelFits(screen);
      var y, w, h := PanelY(screen), PanelWidth(screen), PanelHeight(screen);
      ghost var fill := [Rect(60, y, w, h, PANEL)];
      FillNext(60, y, w, h, PANEL, old(mem[..]), fill, 0);
      StrokeRect(60, y, w, h, 4, PANEL_BORDER);
      PaintAllConcat(screen, old(mem[..]), fill, StrokeRects(60, y, w, h, 4, PANEL_BORDER));
    }

    method DrawPanelBars()
      requires Valid()
      modifies mem
      ensures mem[..] == PaintAll(screen, old(mem[..]), PanelBars(screen))
    {
      PanelFits(screen);
      ghost var rects := PanelBars(screen);
      var y, w := PanelY(screen), PanelWidth(screen);
      FillNext(88, y + 28, Sub(w, 56), 10, ACCENT, old(mem[..]), rects, 0);
      FillNext(88, y + 58, Sub(w, 140), 18, SUCCESS, old(mem[..]), rects, 1);
      FillNext(88, y + 92, Sub(w, 72), 10, ACCENT_MUTED, old(mem[..]), rects, 2);
      FillNext(88, y + 116, Sub(w, 180), 10, ACCENT_MUTED, old(mem[..]), rects, 3);
      FillNext(88, y + 140, Sub(w, 240), 10, ACCENT_MUTED, old(mem[..]), rects, 4);
    }

    method DrawPanelMarks()
      requires Valid()
      modifies mem
      ensures mem[..] == PaintAll(screen, old(mem[..]), PanelMarks(screen))
    {
      PanelFits(screen);
      var y, w, h := PanelY(screen), PanelWidth(screen), PanelHeight(screen);
      DrawMark(60 + Sub(w, 84), y + 38, 36, ACCENT);
      DrawProgress(88, y + Sub(h, 42), Sub(w, 56), 12);
      PaintAllConcat(screen, old(mem[..]), MarkRects(60 + Sub(w, 84), y + 38, 36, ACCENT),
                     ProgressRects(88, y + Sub(h, 42), Sub(w, 56), 12));
    }

    /** The whole picture, or nothing at all when pixels are not 32 bits. */
    method RenderBootVisual(bpp: nat)
      requires Valid()
      modifies mem
      ensures mem[..] == if bpp == 32 then PaintAll(screen, old(mem[..]), Scene(screen)) else old(mem[..])
    {
      if bpp != 32 {
        return;
      }
      ghost var m0 := mem[..];
      DrawBackdrop();
      ghost var m1 := mem[..];
      DrawPanelFrame();
      ghost var m2 := mem[..];
      DrawPanelBars();
      ghost var m3 := mem[..];
      DrawPanelMarks();
      ghost var m4 := mem[..];
      FillNext(64, Sub(screen.height, 84), Sub(screen.width, 128), 48, SHELL_SURFACE, m4, ShellSurface(screen), 0);
      SceneInLayers(screen, m0, m1, m2, m3, m4);
    }
  }

  lemma SceneInLayers(s: Screen, m0: seq<Byte>, m1: seq<Byte>, m2: seq<Byte>, m3: seq<Byte>, m4: seq<Byte>)
    requires m1 == PaintAll(s, m0, Backdrop(s)) && m2 == PaintAll(s, m1, PanelFrame(s))
    requires m3 == PaintAll(s, m2, PanelBars(s)) && m4 == PaintAll(s, m3, PanelMarks(s))
    ensures PaintAll(s, m0, Scene(s)) == PaintAll(s, m4, ShellSurface(s))
  {
    var e := ShellSurface(s);
    var d := PanelMarks(s) + e;
    var c := PanelBars(s) + d;
    PaintAllConcat(s, m3, PanelMarks(s), e);
    PaintAllConcat(s, m2, PanelBars(s), d);
    PaintAllConcat(s, m1, PanelFrame(s), c);
    PaintAllConcat(s, m0, Backdrop(s), PanelFrame(s) + c);
  }

  /** Every visible pixel of the finished picture has the colour of the last
      rectangle of the scene that covers it, whatever memory held before;
      padding is untouched; redrawing changes nothing. */
  lemma PictureIsPainted(s: Screen, mem: seq<Byte>, k: nat)
    requires k < |mem|
    ensures
      var after := PaintAll(s, mem, Scene(s));
      var top := TopColor(Scene(s), Column(s, k), Row(s, k));
      && (Visible(s, k) ==> top.Some? && after[k] == Lane(top.value, LaneOf(s, k)))
      && (!Visible(s, k) ==> after[k] == mem[k])
      && PaintAll(s, after, Scene(s)) == after
  {
    LastRectangleWins(s, mem, Scene(s), k);
    RedrawIsIdempotent(s, mem, mem, Scene(s));
    if Visible(s, k) { BackgroundCovers(s, Scene(s), Column(s, k), Row(s, k)); }
  }
}
